/** The configuration store's search tree as a value, and its meaning as a map. The in-place
    nodes of `ConfigBTree` are proved against the functions of this module. */
module ConfigTree {
  import opened Base
  import opened CString

  datatype Tree<+V> = Leaf | Node(left: Tree<V>, key: string, val: V, right: Tree<V>)

  function Insert<V>(t: Tree<V>, k: string, v: V): Tree<V> {
    match t
    case Leaf => Node(Leaf, k, v, Leaf)
    case Node(l, key, val, r) =>
      var comp := MemCmp(k, key);
      if comp > 0 then Node(l, key, val, Insert(r, k, v))
      else if comp < 0 then Node(Insert(l, k, v), key, val, r)
      else Node(l, k, v, r)
  }

  /** The stored key at which the insertion search stops; none when it runs off the tree. */
  function StopKey<V>(t: Tree<V>, k: string): Option<string> {
    match t
    case Leaf => None
    case Node(l, key, _, r) =>
      var comp := MemCmp(k, key);
      if comp > 0 then StopKey(r, k) else if comp < 0 then StopKey(l, k) else Some(key)
  }

  function Find<V>(t: Tree<V>, k: string): Option<V> {
    match t
    case Leaf => None
    case Node(l, key, val, r) =>
      var comp := StrCmp(k, key);
      if comp > 0 then Find(r, k) else if comp < 0 then Find(l, k) else Some(val)
  }

  /** The tree without its rightmost node, and that node's key and value. */
  function RemoveMax<V>(t: Tree<V>): (Tree<V>, string, V)
    requires t.Node?
  {
    if t.right.Leaf? then (t.left, t.key, t.val)
    else
      var (rest, k, v) := RemoveMax(t.right);
      (Node(t.left, t.key, t.val, rest), k, v)
  }

  /** The tree without its leftmost node, and that node's key and value. */
  function RemoveMin<V>(t: Tree<V>): (Tree<V>, string, V)
    requires t.Node?
  {
    if t.left.Leaf? then (t.right, t.key, t.val)
    else
      var (rest, k, v) := RemoveMin(t.left);
      (Node(rest, t.key, t.val, t.right), k, v)
  }

  /** A node gives way to its in-order predecessor, else to its successor, else to nothing. */
  function RemoveRoot<V>(t: Tree<V>): Tree<V>
    requires t.Node?
  {
    if t.left.Node? then
      var (rest, k, v) := RemoveMax(t.left);
      Node(rest, k, v, t.right)
    else if t.right.Node? then
      var (rest, k, v) := RemoveMin(t.right);
      Node(t.left, k, v, rest)
    else Leaf
  }

  function Delete<V>(t: Tree<V>, k: string): Tree<V> {
    match t
    case Leaf => Leaf
    case Node(l, key, val, r) =>
      var comp := StrCmp(k, key);
      if comp > 0 then Node(l, key, val, Delete(r, k))
      else if comp < 0 then Node(Delete(l, k), key, val, r)
      else RemoveRoot(t)
  }

  function Count<V>(t: Tree<V>): nat {
    match t
    case Leaf => 0
    case Node(l, _, _, r) => Count(l) + 1 + Count(r)
  }

  /** What the tree binds to a key, read off without assuming any order. */
  function Lookup<V>(t: Tree<V>, k: string): Option<V> {
    match t
    case Leaf => None
    case Node(l, key, val, r) =>
      if k == key then Some(val)
      else if Lookup(l, k).Some? then Lookup(l, k) else Lookup(r, k)
  }

  function Keys<V>(t: Tree<V>): (ks: set<string>)
    ensures forall k :: k in ks <==> Lookup(t, k).Some?
  {
    match t
    case Leaf => {}
    case Node(l, key, _, r) => Keys(l) + {key} + Keys(r)
  }

  /** The meaning of a tree. */
  function ToMap<V>(t: Tree<V>): map<string, V> {
    map k | k in Keys(t) :: Lookup(t, k).value
  }

  type Bound = Option<string>

  predicate Within(lo: Bound, k: string, hi: Bound) {
    (lo.Some? ==> Less(lo.value, k)) && (hi.Some? ==> Less(k, hi.value))
  }

  predicate Between<V>(t: Tree<V>, lo: Bound, hi: Bound) {
    t.Node? ==>
      Within(lo, t.key, hi) && Between(t.left, lo, Some(t.key)) && Between(t.right, Some(t.key), hi)
  }

  /** `strcmp` order: what the search and the sorted printer assume. */
  predicate Ordered<V>(t: Tree<V>) {
    Between(t, None, None)
  }

  /** The insertion search ends at a free place or at the very key that is inserted. */
  predicate Clean<V>(t: Tree<V>, k: string) {
    StopKey(t, k) == None || StopKey(t, k) == Some(k)
  }

  // ----- order -----

  lemma {:induction false} StoredKeysAreWithin<V>(t: Tree<V>, lo: Bound, hi: Bound, k: string)
    requires Between(t, lo, hi) && Lookup(t, k).Some?
    ensures Within(lo, k, hi)
  {
    if k != t.key {
      if Lookup(t.left, k).Some? {
        StoredKeysAreWithin(t.left, lo, Some(t.key), k);
        if hi.Some? { LessTransitive(k, t.key, hi.value); }
      } else {
        StoredKeysAreWithin(t.right, Some(t.key), hi, k);
        if lo.Some? { LessTransitive(lo.value, t.key, k); }
      }
    }
  }

  /** Comparing a key with the root of an ordered tree settles where the key can be stored. */
  lemma RootSplitsKeys<V>(t: Tree<V>, lo: Bound, hi: Bound, k: string)
    requires t.Node? && Between(t, lo, hi)
    ensures StrCmp(k, t.key) >= 0 ==> Lookup(t.left, k) == None
    ensures StrCmp(k, t.key) <= 0 ==> Lookup(t.right, k) == None
    ensures StrCmp(k, t.key) == 0 <==> k == t.key
    ensures StrCmp(k, t.key) == -StrCmp(t.key, k)
  {
    StrCmpEqual(k, t.key);
    StrCmpFlip(k, t.key);
    if Lookup(t.left, k).Some? { StoredKeysAreWithin(t.left, lo, Some(t.key), k); }
    if Lookup(t.right, k).Some? { StoredKeysAreWithin(t.right, Some(t.key), hi, k); }
  }

  /** A tighter bound may be relaxed. */
  lemma {:induction false} RelaxBounds<V>(t: Tree<V>, lo: Bound, k: string, hi: Bound)
    requires Within(lo, k, hi)
    ensures Between(t, lo, Some(k)) ==> Between(t, lo, hi)
    ensures Between(t, Some(k), hi) ==> Between(t, lo, hi)
  {
    if t.Node? {
      if Between(t, lo, Some(k)) {
        if hi.Some? { LessTransitive(t.key, k, hi.value); }
        RelaxBounds(t.right, Some(t.key), k, hi);
      }
      if Between(t, Some(k), hi) {
        if lo.Some? { LessTransitive(lo.value, k, t.key); }
        RelaxBounds(t.left, lo, k, Some(t.key));
      }
    }
  }

  lemma {:induction false} FindIsLookup<V>(t: Tree<V>, lo: Bound, hi: Bound, k: string)
    requires Between(t, lo, hi)
    ensures Find(t, k) == Lookup(t, k)
  {
    if t.Node? {
      RootSplitsKeys(t, lo, hi, k);
      FindIsLookup(t.left, lo, Some(t.key), k);
      FindIsLookup(t.right, Some(t.key), hi, k);
    }
  }

  // ----- insertion -----

  /** The `memcmp` path of an insertion is the `strcmp` path of the search that follows, whatever
      the order of the tree. */
  lemma {:induction false} FindAfterInsert<V>(t: Tree<V>, k: string, v: V)
    ensures Find(Insert(t, k, v), k) == Some(v)
  {
    StrCmpEqual(k, k);
    if t.Node? {
      MemCmpVersusStrCmp(k, t.key);
      FindAfterInsert(t.left, k, v);
      FindAfterInsert(t.right, k, v);
    }
  }

  lemma {:induction false} StopKeyStartsWithKey<V>(t: Tree<V>, k: string)
    ensures StopKey(t, k).Some? ==> k <= StopKey(t, k).value && Lookup(t, StopKey(t, k).value).Some?
  {
    if t.Node? {
      MemCmpVersusStrCmp(k, t.key);
      StopKeyStartsWithKey(t.left, k);
      StopKeyStartsWithKey(t.right, k);
    }
  }

  /** No stored key properly extends the new one: the search can then stop at no other key. */
  lemma NoExtensionIsClean<V>(t: Tree<V>, k: string)
    requires forall x :: x in ToMap(t) ==> !ProperPrefix(k, x)
    ensures Clean(t, k)
  {
    StopKeyStartsWithKey(t, k);
    if StopKey(t, k).Some? { assert StopKey(t, k).value in ToMap(t); }
  }

  /** A stored extension of the new key stops the search, there or at another extension. */
  lemma {:induction false} ExtensionStopsTheSearch<V>(t: Tree<V>, lo: Bound, hi: Bound, k: string, x: string)
    requires Between(t, lo, hi) && Lookup(t, x).Some? && k <= x
    ensures StopKey(t, k).Some?
  {
    MemCmpVersusStrCmp(k, t.key);
    MemCmpVersusStrCmp(k, x);
    RootSplitsKeys(t, lo, hi, x);
    StrCmpFlip(k, t.key);
    StrCmpFlip(k, x);
    if MemCmp(k, t.key) > 0 {
      if Less(x, t.key) && k != x { LessTransitive(k, x, t.key); }
      ExtensionStopsTheSearch(t.right, Some(t.key), hi, k, x);
    } else if MemCmp(k, t.key) < 0 {
      if Less(t.key, x) { PrefixesAreContiguous(k, t.key, x); }
      ExtensionStopsTheSearch(t.left, lo, Some(t.key), k, x);
    }
  }

  /** For a key that is not stored, a clean search means exactly that no stored key extends it. */
  lemma CleanMeansNoExtension<V>(t: Tree<V>, k: string)
    requires Ordered(t) && k !in ToMap(t)
    ensures Clean(t, k) <==> forall x :: x in ToMap(t) ==> !ProperPrefix(k, x)
  {
    StopKeyStartsWithKey(t, k);
    if Clean(t, k) {
      forall x | x in ToMap(t) ensures !ProperPrefix(k, x) {
        if ProperPrefix(k, x) { ExtensionStopsTheSearch(t, None, None, k, x); }
      }
    } else {
      NoExtensionOrUnclean(t, k);
    }
  }

  lemma NoExtensionOrUnclean<V>(t: Tree<V>, k: string)
    ensures Clean(t, k) || exists x :: x in ToMap(t) && ProperPrefix(k, x)
  {
    if forall x :: x in ToMap(t) ==> !ProperPrefix(k, x) { NoExtensionIsClean(t, k); }
  }

  lemma {:induction false} CleanInsertAt<V>(t: Tree<V>, lo: Bound, hi: Bound, k: string, v: V, x: string)
    requires Between(t, lo, hi) && Clean(t, k)
    ensures Lookup(Insert(t, k, v), x) == if x == k then Some(v) else Lookup(t, x)
  {
    if t.Node? {
      MemCmpVersusStrCmp(k, t.key);
      RootSplitsKeys(t, lo, hi, k);
      if MemCmp(k, t.key) > 0 {
        CleanInsertAt(t.right, Some(t.key), hi, k, v, x);
      } else if MemCmp(k, t.key) < 0 {
        CleanInsertAt(t.left, lo, Some(t.key), k, v, x);
      }
    }
  }

  lemma {:induction false} CleanInsertKeepsOrder<V>(t: Tree<V>, lo: Bound, hi: Bound, k: string, v: V)
    requires Between(t, lo, hi) && Clean(t, k) && Within(lo, k, hi)
    ensures Between(Insert(t, k, v), lo, hi)
  {
    if t.Node? {
      MemCmpVersusStrCmp(k, t.key);
      StrCmpFlip(k, t.key);
      if MemCmp(k, t.key) > 0 {
        CleanInsertKeepsOrder(t.right, Some(t.key), hi, k, v);
      } else if MemCmp(k, t.key) < 0 {
        CleanInsertKeepsOrder(t.left, lo, Some(t.key), k, v);
      }
    }
  }

  /** When the search stops at another key, that key is lost. */
  lemma {:induction false} UncleanInsertLoses<V>(t: Tree<V>, lo: Bound, hi: Bound, k: string, v: V)
    requires Between(t, lo, hi) && !Clean(t, k)
    ensures Lookup(t, StopKey(t, k).value).Some?
    ensures Lookup(Insert(t, k, v), StopKey(t, k).value) == None
  {
    var lost := StopKey(t, k).value;
    StopKeyStartsWithKey(t, k);
    RootSplitsKeys(t, lo, hi, lost);
    if MemCmp(k, t.key) > 0 {
      StopKeyStartsWithKey(t.right, k);
      StoredKeysAreWithin(t.right, Some(t.key), hi, lost);
      UncleanInsertLoses(t.right, Some(t.key), hi, k, v);
    } else if MemCmp(k, t.key) < 0 {
      StopKeyStartsWithKey(t.left, k);
      StoredKeysAreWithin(t.left, lo, Some(t.key), lost);
      UncleanInsertLoses(t.left, lo, Some(t.key), k, v);
    }
  }

  /** Every stored key is where its own insertion would stop. */
  ghost predicate StopsAtItsKeys<V>(t: Tree<V>) {
    forall x :: Lookup(t, x).Some? ==> StopKey(t, x) == Some(x)
  }

  /** A clean insertion leaves every search that stopped where it was. */
  lemma {:induction false} CleanInsertStops<V>(t: Tree<V>, k: string, v: V, y: string)
    requires Clean(t, k)
    ensures StopKey(Insert(t, k, v), k) == Some(k)
    ensures StopKey(t, y).Some? ==> StopKey(Insert(t, k, v), y) == StopKey(t, y)
  {
    MemCmpVersusStrCmp(k, k);
    if t.Node? {
      if MemCmp(k, t.key) > 0 {
        CleanInsertStops(t.right, k, v, y);
      } else if MemCmp(k, t.key) < 0 {
        CleanInsertStops(t.left, k, v, y);
      }
    }
  }

  /** So it keeps an ordered tree one that stops at its keys. */
  lemma CleanInsertStopsAtKeys<V>(t: Tree<V>, k: string, v: V)
    requires Ordered(t) && StopsAtItsKeys(t) && Clean(t, k)
    ensures StopsAtItsKeys(Insert(t, k, v))
  {
    forall x | Lookup(Insert(t, k, v), x).Some? ensures StopKey(Insert(t, k, v), x) == Some(x) {
      CleanInsertAt(t, None, None, k, v, x);
      CleanInsertStops(t, k, v, x);
    }
  }

  /** Insertion into an ordered tree is map update exactly when the search stops at no other key,
      and it then keeps the order. */
  lemma InsertIsMapUpdate<V>(t: Tree<V>, k: string, v: V)
    requires Ordered(t)
    ensures ToMap(Insert(t, k, v)) == ToMap(t)[k := v] <==> Clean(t, k)
    ensures Clean(t, k) ==> Ordered(Insert(t, k, v))
  {
    if Clean(t, k) {
      forall x ensures Lookup(Insert(t, k, v), x) == if x == k then Some(v) else Lookup(t, x) {
        CleanInsertAt(t, None, None, k, v, x);
      }
      PointwiseUpdate(t, Insert(t, k, v), k, v);
      CleanInsertKeepsOrder(t, None, None, k, v);
    } else {
      UncleanInsertLoses(t, None, None, k, v);
      assert StopKey(t, k).value in ToMap(t)[k := v];
    }
  }

  /** The node count grows exactly when the search ends at a free place. */
  lemma {:induction false} InsertCount<V>(t: Tree<V>, k: string, v: V)
    ensures Count(Insert(t, k, v)) == Count(t) + (if StopKey(t, k) == None then 1 else 0)
  {
    if t.Node? {
      InsertCount(t.left, k, v);
      InsertCount(t.right, k, v);
    }
  }

  /** No stored key that starts with `k` lies below the one the search for `k` stops at. */
  ghost predicate StopsAtTheFirst<V>(t: Tree<V>, k: string) {
    StopKey(t, k) == None || forall x :: Lookup(t, x).Some? && k <= x ==> !Less(x, StopKey(t, k).value)
  }

  /** Bounds close in on a tree whose keys all obey them. */
  lemma {:induction false} TightenUpper<V>(t: Tree<V>, lo: Bound, hi: Bound, k: string)
    requires Between(t, lo, hi) && forall x :: Lookup(t, x).Some? ==> Less(x, k)
    ensures Between(t, lo, Some(k))
  {
    if t.Node? {
      assert Lookup(t, t.key).Some?;
      forall x | Lookup(t.right, x).Some? ensures Less(x, k) { assert Lookup(t, x).Some?; }
      TightenUpper(t.right, Some(t.key), hi, k);
    }
  }

  /** The root of an ordered tree that is no extension of `k` has all of them on one side. */
  lemma ExtensionsOnOneSide<V>(t: Tree<V>, lo: Bound, hi: Bound, k: string, x: string)
    requires t.Node? && Between(t, lo, hi) && Lookup(t, x).Some? && k <= x && !(k <= t.key)
    ensures Lookup(t, x) == if MemCmp(k, t.key) > 0 then Lookup(t.right, x) else Lookup(t.left, x)
  {
    MemCmpVersusStrCmp(k, t.key);
    MemCmpVersusStrCmp(k, x);
    RootSplitsKeys(t, lo, hi, x);
    StrCmpFlip(k, t.key);
    StrCmpFlip(k, x);
    if MemCmp(k, t.key) > 0 {
      if Less(x, t.key) && k != x { LessTransitive(k, x, t.key); }
    } else {
      if Less(t.key, x) { PrefixesAreContiguous(k, t.key, x); }
    }
  }

  lemma SameExtensions<V>(t: Tree<V>, lo: Bound, hi: Bound, k: string)
    requires t.Node? && Between(t, lo, hi) && !(k <= t.key)
    ensures var s := if MemCmp(k, t.key) > 0 then t.right else t.left;
            StopKey(t, k) == StopKey(s, k) && (StopsAtTheFirst(t, k) <==> StopsAtTheFirst(s, k))
  {
    MemCmpVersusStrCmp(k, t.key);
    var s := if MemCmp(k, t.key) > 0 then t.right else t.left;
    forall x | k <= x ensures Lookup(t, x).Some? <==> Lookup(s, x).Some? {
      if Lookup(t, x).Some? { ExtensionsOnOneSide(t, lo, hi, k, x); }
      if Lookup(s, x).Some? { assert Lookup(t, x).Some?; }
    }
  }

  /** At the key it replaces: the order survives exactly when no extension lies to its left. */
  lemma ReplaceKeepsOrderIff<V>(t: Tree<V>, lo: Bound, hi: Bound, k: string, v: V)
    requires t.Node? && Between(t, lo, hi) && Within(lo, k, hi) && k <= t.key
    ensures Between(Node(t.left, k, v, t.right), lo, hi) <==> StopsAtTheFirst(t, k)
  {
    MemCmpVersusStrCmp(k, t.key);
    StrCmpFlip(k, t.key);
    if k != t.key { RaiseLower(t.right, k, t.key, hi); }
    if StopsAtTheFirst(t, k) {
      forall x | Lookup(t.left, x).Some? ensures Less(x, k) {
        StoredKeysAreWithin(t.left, lo, Some(t.key), x);
        assert Lookup(t, x).Some?;
        StrCmpFlip(x, k);
        StrCmpEqual(x, k);
        if !Less(x, k) {
          StrCmpFlip(x, t.key);
          PrefixesAreContiguous(k, x, t.key);
        }
      }
      TightenUpper(t.left, lo, Some(t.key), k);
    } else {
      var x :| Lookup(t, x).Some? && k <= x && Less(x, t.key);
      RootSplitsKeys(t, lo, hi, x);
      MemCmpVersusStrCmp(k, x);
      StrCmpFlip(k, x);
      StrCmpFlip(x, t.key);
      if Between(t.left, lo, Some(k)) { StoredKeysAreWithin(t.left, lo, Some(k), x); }
    }
  }

  lemma {:induction false} RaiseLower<V>(t: Tree<V>, k: string, lo: string, hi: Bound)
    requires Between(t, Some(lo), hi) && Less(k, lo)
    ensures Between(t, Some(k), hi)
  {
    if t.Node? {
      LessTransitive(k, lo, t.key);
      RaiseLower(t.left, k, lo, Some(t.key));
    }
  }

  lemma {:induction false} InsertKeepsOrderWithin<V>(t: Tree<V>, lo: Bound, hi: Bound, k: string, v: V)
    requires Between(t, lo, hi) && Within(lo, k, hi)
    ensures Between(Insert(t, k, v), lo, hi) <==> StopsAtTheFirst(t, k)
  {
    if t.Node? {
      MemCmpVersusStrCmp(k, t.key);
      StrCmpFlip(k, t.key);
      if MemCmp(k, t.key) == 0 {
        ReplaceKeepsOrderIff(t, lo, hi, k, v);
      } else {
        SameExtensions(t, lo, hi, k);
        if MemCmp(k, t.key) > 0 {
          InsertKeepsOrderWithin(t.right, Some(t.key), hi, k, v);
        } else {
          InsertKeepsOrderWithin(t.left, lo, Some(t.key), k, v);
        }
      }
    }
  }

  /** The order alone survives an insertion if and only if the search ends at a free place or stops
      at the first of the stored keys that start with the new one. */
  lemma InsertKeepsOrderIff<V>(t: Tree<V>, k: string, v: V)
    requires Ordered(t)
    ensures Ordered(Insert(t, k, v)) <==> StopsAtTheFirst(t, k)
  {
    InsertKeepsOrderWithin(t, None, None, k, v);
  }

  /** With "abc" above "abb", inserting "ab" drops "abc" and leaves "abb" where no search finds it. */
  lemma PrefixInsertBreaksTheOrder<V>(v: V)
    ensures var t := Node(Node(Leaf, "abb", v, Leaf), "abc", v, Leaf);
            && Ordered(t)
            && Insert(t, "ab", v) == Node(Node(Leaf, "abb", v, Leaf), "ab", v, Leaf)
            && !Ordered(Insert(t, "ab", v))
            && Find(t, "abb") == Some(v) && Find(Insert(t, "ab", v), "abb") == None
  {
    CompareSteps();
    var low := Node(Leaf, "abb", v, Leaf);
    var t := Node(low, "abc", v, Leaf);
    assert ToMap(low) == map["abb" := v];
    assert "abb" in ToMap(low);
    assert MemCmp("ab", "abc") == 0;
    assert !Between(low, None, Some("ab"));
    assert Find(Insert(t, "ab", v), "abb") == Find(Insert(t, "ab", v).right, "abb");
  }

  lemma CompareSteps()
    ensures StrCmp("abb", "abc") == -1 && StrCmp("abb", "ab") == 1 && StrCmp("abb", "abb") == 0
    ensures MemCmp("ab", "abc") == 0
  {
    assert "abb"[1..] == "bb" && "abc"[1..] == "bc" && "bb"[1..] == "b" && "bc"[1..] == "c";
    assert "ab"[1..] == "b" && "b"[1..] == "" && "c"[1..] == "";
    assert StrCmp("b", "c") == -1 && StrCmp("b", "") == 1 && StrCmp("b", "b") == 0;
    assert StrCmp("bb", "bc") == StrCmp("b", "c") && StrCmp("bb", "b") == StrCmp("b", "");
    assert MemCmp("b", "bc") == MemCmp("", "c");
  }

  /** Inserting above every stored key is always clean: an extension would lie above as well. */
  lemma AscendingInsertIsClean<V>(t: Tree<V>, k: string)
    requires forall x :: x in ToMap(t) ==> Less(x, k)
    ensures Clean(t, k)
  {
    forall x | x in ToMap(t) ensures !ProperPrefix(k, x) {
      MemCmpVersusStrCmp(k, x);
      StrCmpFlip(k, x);
    }
    NoExtensionIsClean(t, k);
  }

  // ----- deletion -----

  lemma {:induction false} RemoveMaxIsMaximum<V>(t: Tree<V>, lo: Bound, hi: Bound)
    requires t.Node? && Between(t, lo, hi)
    ensures var (rest, k, v) := RemoveMax(t);
            Between(rest, lo, Some(k)) && Within(lo, k, hi)
  {
    if t.right.Node? {
      RemoveMaxIsMaximum(t.right, Some(t.key), hi);
      if lo.Some? { LessTransitive(lo.value, t.key, RemoveMax(t.right).1); }
    }
  }

  lemma {:induction false} RemoveMaxAt<V>(t: Tree<V>, lo: Bound, hi: Bound, x: string)
    requires t.Node? && Between(t, lo, hi)
    ensures var (rest, k, v) := RemoveMax(t);
            Lookup(t, k) == Some(v) && Lookup(rest, x) == if x == k then None else Lookup(t, x)
  {
    RootSplitsKeys(t, lo, hi, RemoveMax(t).1);
    if t.right.Node? {
      RemoveMaxIsMaximum(t.right, Some(t.key), hi);
      RemoveMaxAt(t.right, Some(t.key), hi, x);
    }
  }

  lemma {:induction false} RemoveMinIsMinimum<V>(t: Tree<V>, lo: Bound, hi: Bound)
    requires t.Node? && Between(t, lo, hi)
    ensures var (rest, k, v) := RemoveMin(t);
            Between(rest, Some(k), hi) && Within(lo, k, hi)
  {
    if t.left.Node? {
      RemoveMinIsMinimum(t.left, lo, Some(t.key));
      if hi.Some? { LessTransitive(RemoveMin(t.left).1, t.key, hi.value); }
    }
  }

  lemma {:induction false} RemoveMinAt<V>(t: Tree<V>, lo: Bound, hi: Bound, x: string)
    requires t.Node? && Between(t, lo, hi)
    ensures var (rest, k, v) := RemoveMin(t);
            Lookup(t, k) == Some(v) && Lookup(rest, x) == if x == k then None else Lookup(t, x)
  {
    RootSplitsKeys(t, lo, hi, RemoveMin(t).1);
    if t.left.Node? {
      RemoveMinIsMinimum(t.left, lo, Some(t.key));
      RemoveMinAt(t.left, lo, Some(t.key), x);
    }
  }

  lemma {:induction false} RemoveMaxCount<V>(t: Tree<V>)
    requires t.Node?
    ensures Count(RemoveMax(t).0) + 1 == Count(t)
  {
    if t.right.Node? { RemoveMaxCount(t.right); }
  }

  lemma {:induction false} RemoveMinCount<V>(t: Tree<V>)
    requires t.Node?
    ensures Count(RemoveMin(t).0) + 1 == Count(t)
  {
    if t.left.Node? { RemoveMinCount(t.left); }
  }

  /** Deleting a node, in order or not, leaves one node less. */
  lemma RemoveRootCount<V>(t: Tree<V>)
    requires t.Node?
    ensures Count(RemoveRoot(t)) + 1 == Count(t)
  {
    if t.left.Node? { RemoveMaxCount(t.left); }
    else if t.right.Node? { RemoveMinCount(t.right); }
  }

  lemma RemoveRootKeepsOrder<V>(t: Tree<V>, lo: Bound, hi: Bound)
    requires t.Node? && Between(t, lo, hi)
    ensures Between(RemoveRoot(t), lo, hi)
  {
    if t.left.Node? {
      RemoveMaxIsMaximum(t.left, lo, Some(t.key));
      var k := RemoveMax(t.left).1;
      if hi.Some? { LessTransitive(k, t.key, hi.value); }
      RelaxBounds(t.right, Some(k), t.key, hi);
    } else if t.right.Node? {
      RemoveMinIsMinimum(t.right, Some(t.key), hi);
      if lo.Some? { LessTransitive(lo.value, t.key, RemoveMin(t.right).1); }
    }
  }

  lemma RemoveRootAt<V>(t: Tree<V>, lo: Bound, hi: Bound, x: string)
    requires t.Node? && Between(t, lo, hi)
    ensures Lookup(RemoveRoot(t), x) == if x == t.key then None else Lookup(t, x)
  {
    RootSplitsKeys(t, lo, hi, t.key);
    if t.left.Node? {
      RemoveMaxAt(t.left, lo, Some(t.key), x);
    } else if t.right.Node? {
      RemoveMinAt(t.right, Some(t.key), hi, x);
    }
  }

  lemma {:induction false} DeleteAt<V>(t: Tree<V>, lo: Bound, hi: Bound, k: string, x: string)
    requires Between(t, lo, hi)
    ensures Lookup(Delete(t, k), x) == if x == k then None else Lookup(t, x)
  {
    if t.Node? {
      RootSplitsKeys(t, lo, hi, k);
      if StrCmp(k, t.key) > 0 {
        DeleteAt(t.right, Some(t.key), hi, k, x);
      } else if StrCmp(k, t.key) < 0 {
        DeleteAt(t.left, lo, Some(t.key), k, x);
      } else {
        RemoveRootAt(t, lo, hi, x);
      }
    }
  }

  lemma {:induction false} DeleteKeepsOrder<V>(t: Tree<V>, lo: Bound, hi: Bound, k: string)
    requires Between(t, lo, hi)
    ensures Between(Delete(t, k), lo, hi)
    ensures Count(Delete(t, k)) + (if Lookup(t, k).Some? then 1 else 0) == Count(t)
    ensures Lookup(t, k) == None ==> Delete(t, k) == t
  {
    if t.Node? {
      RootSplitsKeys(t, lo, hi, k);
      if StrCmp(k, t.key) > 0 {
        DeleteKeepsOrder(t.right, Some(t.key), hi, k);
      } else if StrCmp(k, t.key) < 0 {
        DeleteKeepsOrder(t.left, lo, Some(t.key), k);
      } else {
        RemoveRootKeepsOrder(t, lo, hi);
        RemoveRootCount(t);
      }
    }
  }

  /** The stored key above all others, and the one below. */
  ghost predicate IsGreatest<V>(t: Tree<V>, k: string) {
    Lookup(t, k).Some? && forall x :: Lookup(t, x).Some? && x != k ==> Less(x, k)
  }

  ghost predicate IsLeast<V>(t: Tree<V>, k: string) {
    Lookup(t, k).Some? && forall x :: Lookup(t, x).Some? && x != k ==> Less(k, x)
  }

  lemma RemovedIsGreatest<V>(t: Tree<V>, lo: Bound, hi: Bound)
    requires t.Node? && Between(t, lo, hi)
    ensures IsGreatest(t, RemoveMax(t).1)
  {
    var (rest, k, v) := RemoveMax(t);
    RemoveMaxIsMaximum(t, lo, hi);
    RemoveMaxAt(t, lo, hi, k);
    forall x | Lookup(t, x).Some? && x != k ensures Less(x, k) {
      RemoveMaxAt(t, lo, hi, x);
      StoredKeysAreWithin(rest, lo, Some(k), x);
    }
  }

  lemma RemovedIsLeast<V>(t: Tree<V>, lo: Bound, hi: Bound)
    requires t.Node? && Between(t, lo, hi)
    ensures IsLeast(t, RemoveMin(t).1)
  {
    var (rest, k, v) := RemoveMin(t);
    RemoveMinIsMinimum(t, lo, hi);
    RemoveMinAt(t, lo, hi, k);
    forall x | Lookup(t, x).Some? && x != k ensures Less(k, x) {
      RemoveMinAt(t, lo, hi, x);
      StoredKeysAreWithin(rest, Some(k), hi, x);
    }
  }

  /** Who takes the place of a deleted root: the greatest key on its left, if there is a left; else
      the least on its right; else nobody. The other side stays as it is. */
  lemma RootGivesWay<V>(t: Tree<V>)
    requires t.Node? && Ordered(t)
    ensures var r := Delete(t, t.key);
            if t.left.Node? then r.Node? && IsGreatest(t.left, r.key) && r.right == t.right
            else if t.right.Node? then r.Node? && IsLeast(t.right, r.key) && r.left == Leaf
            else r == Leaf
  {
    StrCmpEqual(t.key, t.key);
    if t.left.Node? {
      RemovedIsGreatest(t.left, None, Some(t.key));
    } else if t.right.Node? {
      RemovedIsLeast(t.right, Some(t.key), None);
    }
  }

  lemma PointwiseUpdate<V>(t: Tree<V>, u: Tree<V>, k: string, v: V)
    requires forall x :: Lookup(u, x) == if x == k then Some(v) else Lookup(t, x)
    ensures ToMap(u) == ToMap(t)[k := v]
  {}

  lemma PointwiseRemoval<V>(t: Tree<V>, u: Tree<V>, k: string)
    requires forall x :: Lookup(u, x) == if x == k then None else Lookup(t, x)
    ensures ToMap(u) == ToMap(t) - {k}
  {}

  /** Deletion removes exactly the given key: order and every other binding survive, and an
      absent key leaves the tree as it was. */
  lemma DeleteIsMapRemoval<V>(t: Tree<V>, k: string)
    requires Ordered(t)
    ensures ToMap(Delete(t, k)) == ToMap(t) - {k}
    ensures Ordered(Delete(t, k))
    ensures Count(Delete(t, k)) + (if k in ToMap(t) then 1 else 0) == Count(t)
    ensures k !in ToMap(t) ==> Delete(t, k) == t
  {
    forall x ensures Lookup(Delete(t, k), x) == if x == k then None else Lookup(t, x) {
      DeleteAt(t, None, None, k, x);
    }
    PointwiseRemoval(t, Delete(t, k), k);
    DeleteKeepsOrder(t, None, None, k);
  }

  // ----- size and in-order listing -----

  lemma {:induction false} CountIsKeyCount<V>(t: Tree<V>, lo: Bound, hi: Bound)
    requires Between(t, lo, hi)
    ensures Count(t) == |Keys(t)|
  {
    if t.Node? {
      CountIsKeyCount(t.left, lo, Some(t.key));
      CountIsKeyCount(t.right, Some(t.key), hi);
      RootSplitsKeys(t, lo, hi, t.key);
      forall x | x in Keys(t.left) ensures x !in Keys(t.right) { RootSplitsKeys(t, lo, hi, x); }
      assert |Keys(t.left) + {t.key}| == |Keys(t.left)| + 1;
      assert (Keys(t.left) + {t.key}) !! Keys(t.right);
    }
  }

  /** The node count of an ordered tree is the size of its map. */
  lemma CountIsMapSize<V>(t: Tree<V>)
    requires Ordered(t)
    ensures Count(t) == |ToMap(t)|
  {
    CountIsKeyCount(t, None, None);
    assert ToMap(t).Keys == Keys(t);
  }
}

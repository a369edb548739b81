/** A configuration as a value: a tree of sections, each a tree of keys. */
module IniModel {
  import opened Base
  import opened CString
  import opened ConfigTree
  import opened IniGrammar

  type SectionTree = Tree<string>
  type Config = Tree<SectionTree>

  const DEFAULT_NAME := "default"

  /** Opening a section, new or not, leaves it empty. */
  function OpenSection(c: Config, name: string): Config {
    Insert(c, name, Leaf)
  }

  /** The tree with the value of the node that a search for `k` finds replaced. */
  function SetFound<V>(t: Tree<V>, k: string, v: V): Tree<V> {
    match t
    case Leaf => Leaf
    case Node(l, key, val, r) =>
      var comp := StrCmp(k, key);
      if comp > 0 then Node(l, key, val, SetFound(r, k, v))
      else if comp < 0 then Node(SetFound(l, k, v), key, val, r)
      else Node(l, key, v, r)
  }

  /** Storing a key in the named section; none when there is no such section. */
  function PutEntry(c: Config, name: string, key: string, value: string): Option<Config> {
    match Find(c, name)
    case None => None
    case Some(section) => Some(SetFound(c, name, Insert(section, key, value)))
  }

  function GetEntry(c: Config, name: string, key: string): Option<string> {
    match Find(c, name)
    case None => None
    case Some(section) => Find(section, key)
  }

  /** A configuration being read, and the section that takes the next key. */
  datatype Reading = Reading(config: Config, current: string)

  function Start(): Reading {
    Reading(OpenSection(Leaf, DEFAULT_NAME), DEFAULT_NAME)
  }

  function Do(r: Reading, op: Op): Reading {
    match op
    case Open(name) => Reading(OpenSection(r.config, name), name)
    case Put(key, value) =>
      var c := PutEntry(r.config, r.current, key, value);
      if c.Some? then r.(config := c.value) else r
  }

  function Run(r: Reading, ops: seq<Op>): Reading
    decreases |ops|
  {
    if ops == [] then r else Run(Do(r, ops[0]), ops[1..])
  }

  /** What a text denotes: nothing when some line is malformed. */
  function Load(text: string): Option<Config> {
    var d := Document(text);
    if d.ok then Some(Run(Start(), d.ops).config) else None
  }

  lemma {:induction false} FindAfterSet<V>(t: Tree<V>, k: string, v: V, x: string)
    requires Find(t, k).Some?
    ensures Find(SetFound(t, k, v), k) == Some(v)
    ensures x != k ==> Find(SetFound(t, k, v), x) == Find(t, x)
  {
    StrCmpEqual(k, t.key);
    StrCmpEqual(x, t.key);
    if StrCmp(k, t.key) > 0 { FindAfterSet(t.right, k, v, x); }
    else if StrCmp(k, t.key) < 0 { FindAfterSet(t.left, k, v, x); }
  }

  lemma {:induction false} RunConcat(r: Reading, a: seq<Op>, b: seq<Op>)
    ensures Run(r, a + b) == Run(Run(r, a), b)
    decreases |a|
  {
    if a == [] {
      assert a + b == b;
    } else {
      assert (a + b)[1..] == a[1..] + b;
      RunConcat(Do(r, a[0]), a[1..], b);
    }
  }

  lemma RunOne(r: Reading, a: seq<Op>, op: Op)
    ensures Run(r, a + [op]) == Do(Run(r, a), op)
  {
    RunConcat(r, a, [op]);
    assert [op][1..] == [];
  }

  /** The section that takes the next key is always found, whatever the order of the tree. */
  lemma {:induction false} CurrentSectionIsFound(r: Reading, ops: seq<Op>)
    requires Find(r.config, r.current).Some?
    ensures Find(Run(r, ops).config, Run(r, ops).current).Some?
    decreases |ops|
  {
    if ops != [] {
      match ops[0] {
        case Open(name) =>
          FindAfterInsert(r.config, name, Leaf);
        case Put(key, value) =>
          FindAfterSet(r.config, r.current, Insert(Find(r.config, r.current).value, key, value), r.current);
      }
      CurrentSectionIsFound(Do(r, ops[0]), ops[1..]);
    }
  }

  lemma StartIsFound(ops: seq<Op>)
    ensures Find(Run(Start(), ops).config, Run(Start(), ops).current).Some?
  {
    FindAfterInsert<SectionTree>(Leaf, DEFAULT_NAME, Leaf);
    CurrentSectionIsFound(Start(), ops);
  }

  /** Line ends, a final newline and comment lines do not show in the result. */
  lemma LoadIgnoresLayout(text: string, before: string, comment: string, after: string)
    requires '\n' !in comment
    ensures Load(CrLf(text)) == Load(text) && Load(text + "\n") == Load(text)
    ensures Load(before + "\n" + (";" + comment) + "\n" + after) == Load(before + "\n" + after)
    ensures Load((";" + comment) + "\n" + after) == Load(after)
  {
    hide Document, Run;
    CrLfIsInvisible(text);
    FinalNewlineIsSkipped(text);
    CommentLineIsSkipped(before, comment, after);
  }

  // ----- setting and getting -----

  function Ensure(c: Config, name: string): Config {
    if Find(c, name) == None then OpenSection(c, name) else c
  }

  /** Setting a key creates the section when the search does not find it. */
  function SetEntry(c: Config, name: string, key: string, value: string): (r: Config) {
    FindAfterInsert(c, name, Leaf);
    PutEntry(Ensure(c, name), name, key, value).value
  }

  /** A key that was set is read back, on any tree and with any other names stored. */
  lemma GetAfterSet(c: Config, name: string, key: string, value: string)
    ensures GetEntry(SetEntry(c, name, key, value), name, key) == Some(value)
  {
    FindAfterInsert(c, name, Leaf);
    var d := Ensure(c, name);
    var section := Find(d, name).value;
    FindAfterInsert(section, key, value);
    FindAfterSet(d, name, Insert(section, key, value), name);
  }

  ghost predicate InOrder(c: Config) {
    Ordered(c) && forall s :: Lookup(c, s).Some? ==> Ordered(Lookup(c, s).value)
  }

  lemma FindAfterCleanInsert<V>(t: Tree<V>, k: string, v: V, x: string)
    requires Ordered(t) && Clean(t, k) && x != k
    ensures Find(Insert(t, k, v), x) == Find(t, x)
  {
    CleanInsertAt(t, None, None, k, v, x);
    CleanInsertKeepsOrder(t, None, None, k, v);
    FindIsLookup(t, None, None, x);
    FindIsLookup(Insert(t, k, v), None, None, x);
  }

  /** Opening a section leaves the other sections alone exactly when the search for its place stops
      at no longer name. */
  lemma OpenLeavesOthers(c: Config, name: string)
    requires Ordered(c)
    ensures (forall s :: s != name ==> Lookup(OpenSection(c, name), s) == Lookup(c, s)) <==> Clean(c, name)
    ensures Clean(c, name) ==> Ordered(OpenSection(c, name)) && Lookup(OpenSection(c, name), name) == Some(Leaf)
  {
    if Clean(c, name) {
      forall s ensures Lookup(OpenSection(c, name), s) == if s == name then Some(Leaf) else Lookup(c, s) {
        CleanInsertAt(c, None, None, name, Leaf, s);
      }
      CleanInsertKeepsOrder(c, None, None, name, Leaf);
    } else {
      UncleanInsertLoses(c, None, None, name, Leaf);
    }
  }

  /** With only "ab" open, opening "a" takes its place. */
  lemma OpeningAPrefixDisplaces(section: SectionTree)
    ensures var c := Node(Leaf, "ab", section, Leaf);
            Find(c, "ab") == Some(section) && Find(OpenSection(c, "a"), "ab") == None
  {
    MemCmpVersusStrCmp("a", "ab");
    StrCmpEqual("ab", "ab");
    StrCmpEqual("ab", "a");
  }

  /** The names are placed where they collide with no longer stored name. */
  predicate CleanSet(c: Config, name: string, key: string) {
    match Find(c, name)
    case None => Clean(c, name)
    case Some(section) => Clean(section, key)
  }

  /** Setting a key leaves every other lookup as it was. */
  lemma SetLeavesOthers(c: Config, name: string, key: string, value: string, s: string, k: string)
    requires InOrder(c) && CleanSet(c, name, key) && (s != name || k != key)
    ensures GetEntry(SetEntry(c, name, key, value), s, k) == GetEntry(c, s, k)
  {
    FindIsLookup(c, None, None, name);
    FindAfterInsert(c, name, Leaf);
    var d := Ensure(c, name);
    var section := Find(d, name).value;
    FindAfterSet(d, name, Insert(section, key, value), s);
    FindAfterSet(d, name, Insert(section, key, value), name);
    if s != name {
      if Find(c, name) == None { FindAfterCleanInsert(c, name, Leaf, s); }
    } else {
      FindAfterCleanInsert(section, key, value, k);
    }
  }

  lemma {:induction false} SetFoundKeepsOrder<V>(t: Tree<V>, lo: Bound, hi: Bound, k: string, v: V)
    requires Between(t, lo, hi)
    ensures Between(SetFound(t, k, v), lo, hi)
  {
    if t.Node? {
      SetFoundKeepsOrder(t.left, lo, Some(t.key), k, v);
      SetFoundKeepsOrder(t.right, Some(t.key), hi, k, v);
    }
  }

  lemma SetFoundAt<V>(t: Tree<V>, k: string, v: V, x: string)
    requires Ordered(t) && Find(t, k).Some?
    ensures Ordered(SetFound(t, k, v))
    ensures Lookup(SetFound(t, k, v), x) == if x == k then Some(v) else Lookup(t, x)
  {
    SetFoundKeepsOrder(t, None, None, k, v);
    FindAfterSet(t, k, v, x);
    FindIsLookup(t, None, None, x);
    FindIsLookup(SetFound(t, k, v), None, None, x);
  }

  /** Setting a key with clean searches keeps every tree in order, so that sets may follow on it. */
  lemma SetKeepsOrder(c: Config, name: string, key: string, value: string)
    requires InOrder(c) && CleanSet(c, name, key)
    ensures InOrder(SetEntry(c, name, key, value))
  {
    FindIsLookup(c, None, None, name);
    FindAfterInsert(c, name, Leaf);
    OpenLeavesOthers(c, name);
    var d := Ensure(c, name);
    FindIsLookup(d, None, None, name);
    var section := Find(d, name).value;
    CleanInsertKeepsOrder(section, None, None, key, value);
    SetFoundAt(d, name, Insert(section, key, value), name);
    forall s ensures Lookup(SetEntry(c, name, key, value), s).Some? ==>
                       Ordered(Lookup(SetEntry(c, name, key, value), s).value)
    {
      SetFoundAt(d, name, Insert(section, key, value), s);
      if s != name && Find(c, name) == None { assert Lookup(d, s) == Lookup(c, s); }
    }
  }

  /** In a section that exists, the other keys survive exactly when the search for the place of
      the new key stops at no longer key. */
  lemma SetKeepsTheSection(c: Config, name: string, key: string, value: string)
    requires InOrder(c) && Find(c, name).Some?
    ensures (forall k :: k != key ==> GetEntry(SetEntry(c, name, key, value), name, k) == GetEntry(c, name, k))
       <==> Clean(Find(c, name).value, key)
  {
    var section := Find(c, name).value;
    FindIsLookup(c, None, None, name);
    if Clean(section, key) {
      forall k | k != key ensures GetEntry(SetEntry(c, name, key, value), name, k) == GetEntry(c, name, k) {
        SetLeavesOthers(c, name, key, value, name, k);
      }
    } else {
      var lost := StopKey(section, key).value;
      UncleanInsertLoses(section, None, None, key, value);
      FindIsLookup(section, None, None, lost);
      FindAfterSet(c, name, Insert(section, key, value), name);
      var after := Insert(section, key, value);
      if Find(after, lost).Some? { FindFinds(after, lost); }
      assert GetEntry(SetEntry(c, name, key, value), name, lost) != GetEntry(c, name, lost);
    }
  }

  /** A set leaves the other sections to be found as they were and the section's other keys with
      their values, if and only if its searches are clean. */
  lemma SetLeavesOthersIff(c: Config, name: string, key: string, value: string)
    requires InOrder(c)
    ensures var d := SetEntry(c, name, key, value);
            ((forall s :: s != name ==> Find(d, s) == Find(c, s))
             && (forall k :: k != key ==> GetEntry(d, name, k) == GetEntry(c, name, k)))
            <==> CleanSet(c, name, key)
  {
    FindAfterInsert(c, name, Leaf);
    var d := Ensure(c, name);
    var filled := Insert(Find(d, name).value, key, value);
    forall s ensures s != name ==> Find(SetEntry(c, name, key, value), s) == Find(d, s) {
      FindAfterSet(d, name, filled, s);
    }
    if Find(c, name).Some? {
      SetKeepsTheSection(c, name, key, value);
    } else {
      if Clean(c, name) {
        forall s | s != name ensures Find(d, s) == Find(c, s) { FindAfterCleanInsert(c, name, Leaf, s); }
      } else {
        DisplacedIsNotFound(c, name);
      }
      FindAfterSet(d, name, filled, name);
      assert filled == Node(Leaf, key, value, Leaf);
      forall k | k != key ensures GetEntry(SetEntry(c, name, key, value), name, k) == None {
        StrCmpEqual(k, key);
        assert Find(filled, k) == None;
      }
    }
  }

  /** An opening that is not clean displaces a section that was found before. */
  lemma DisplacedIsNotFound(c: Config, name: string)
    requires Ordered(c) && !Clean(c, name)
    ensures exists s :: s != name && Find(c, s).Some? && Find(OpenSection(c, name), s) == None
  {
    var lost := StopKey(c, name).value;
    UncleanInsertLoses(c, None, None, name, Leaf);
    FindIsLookup(c, None, None, lost);
    if Find(OpenSection(c, name), lost).Some? { FindFinds(OpenSection(c, name), lost); }
  }

  /** Opening a section empties it, whatever the configuration held and in whatever order. */
  lemma ReopeningForgets(r: Reading, s: string, k: string)
    ensures GetEntry(Do(r, Open(s)).config, s, k) == None && Find(Do(r, Open(s)).config, s).Some?
  {
    FindAfterInsert(r.config, s, Leaf);
  }

  /** A search finds only what is stored. */
  lemma {:induction false} FindFinds<V>(t: Tree<V>, k: string)
    requires Find(t, k).Some?
    ensures Lookup(t, k).Some?
  {
    StrCmpEqual(k, t.key);
    if StrCmp(k, t.key) > 0 { FindFinds(t.right, k); }
    else if StrCmp(k, t.key) < 0 { FindFinds(t.left, k); }
  }
}

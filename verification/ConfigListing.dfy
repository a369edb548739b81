/** The in-order listing of a tree: what the sorted printer walks, and how insertion changes it. */
module ConfigListing {
  import opened Base
  import opened CString
  import opened ConfigTree

  type Items<V> = seq<(string, V)>

  function Inorder<V>(t: Tree<V>): Items<V> {
    match t
    case Leaf => []
    case Node(l, key, val, r) => Inorder(l) + [(key, val)] + Inorder(r)
  }

  predicate Rising<V>(items: Items<V>, lo: Bound, hi: Bound) {
    items != [] ==> Within(lo, items[0].0, hi) && Rising(items[1..], Some(items[0].0), hi)
  }

  /** The binding of a key in a listing. */
  function At<V>(items: Items<V>, k: string): Option<V> {
    if items == [] then None
    else if items[0].0 == k then Some(items[0].1)
    else At(items[1..], k)
  }

  /** Where `memcmp` puts a key in a listing: it replaces the first key it extends to, or stands
      before the first larger key. */
  function Place<V>(items: Items<V>, k: string, v: V): Items<V> {
    if items == [] then [(k, v)]
    else if MemCmp(k, items[0].0) > 0 then [items[0]] + Place(items[1..], k, v)
    else if MemCmp(k, items[0].0) < 0 then [(k, v)] + items
    else [(k, v)] + items[1..]
  }

  // ----- listings and trees -----

  lemma {:induction false} RisingSplits<V>(a: Items<V>, k: string, v: V, b: Items<V>, lo: Bound, hi: Bound)
    ensures Rising(a + [(k, v)] + b, lo, hi)
       <==> Rising(a, lo, Some(k)) && Within(lo, k, hi) && Rising(b, Some(k), hi)
  {
    var all := a + [(k, v)] + b;
    if a == [] {
      assert all[1..] == b;
    } else {
      assert all[1..] == a[1..] + [(k, v)] + b;
      RisingSplits(a[1..], k, v, b, Some(a[0].0), hi);
      if Less(a[0].0, k) {
        if lo.Some? && Less(lo.value, a[0].0) { LessTransitive(lo.value, a[0].0, k); }
        if hi.Some? && Less(k, hi.value) { LessTransitive(a[0].0, k, hi.value); }
      }
    }
  }

  /** A tree is in order exactly when its listing rises. */
  lemma {:induction false} OrderedIsRising<V>(t: Tree<V>, lo: Bound, hi: Bound)
    ensures Between(t, lo, hi) <==> Rising(Inorder(t), lo, hi)
  {
    if t.Node? {
      OrderedIsRising(t.left, lo, Some(t.key));
      OrderedIsRising(t.right, Some(t.key), hi);
      RisingSplits(Inorder(t.left), t.key, t.val, Inorder(t.right), lo, hi);
    }
  }

  lemma {:induction false} AtConcat<V>(a: Items<V>, b: Items<V>, k: string)
    ensures At(a + b, k) == if At(a, k).Some? then At(a, k) else At(b, k)
  {
    if a == [] {
      assert a + b == b;
    } else {
      assert (a + b)[1..] == a[1..] + b;
      AtConcat(a[1..], b, k);
    }
  }

  /** The listing of an ordered tree carries its whole map. */
  lemma {:induction false} ListingIsLookup<V>(t: Tree<V>, lo: Bound, hi: Bound, k: string)
    requires Between(t, lo, hi)
    ensures At(Inorder(t), k) == Lookup(t, k)
  {
    if t.Node? {
      ListingIsLookup(t.left, lo, Some(t.key), k);
      ListingIsLookup(t.right, Some(t.key), hi, k);
      RootSplitsKeys(t, lo, hi, k);
      AtConcat(Inorder(t.left) + [(t.key, t.val)], Inorder(t.right), k);
      AtConcat(Inorder(t.left), [(t.key, t.val)], k);
    }
  }

  // ----- insertion on listings -----

  /** A key above every key of `a` is placed beyond them. */
  lemma {:induction false} PlaceBeyond<V>(a: Items<V>, b: Items<V>, k: string, v: V)
    requires forall i :: 0 <= i < |a| ==> MemCmp(k, a[i].0) > 0
    ensures Place(a + b, k, v) == a + Place(b, k, v)
  {
    if a == [] {
      assert a + b == b;
    } else {
      assert (a + b)[1..] == a[1..] + b;
      PlaceBeyond(a[1..], b, k, v);
    }
  }

  /** A key that belongs before the end of `a` is placed inside it. */
  lemma {:induction false} PlaceInside<V>(a: Items<V>, b: Items<V>, k: string, v: V)
    requires b != [] && MemCmp(k, b[0].0) < 0
    ensures Place(a + b, k, v) == Place(a, k, v) + b
  {
    if a == [] {
      assert a + b == b;
    } else {
      assert (a + b)[1..] == a[1..] + b;
      PlaceInside(a[1..], b, k, v);
    }
  }

  lemma {:induction false} ListedKeysAreWithin<V>(items: Items<V>, lo: Bound, hi: Bound, i: nat)
    requires Rising(items, lo, hi) && i < |items|
    ensures Within(lo, items[i].0, hi)
  {
    if i > 0 {
      ListedKeysAreWithin(items[1..], Some(items[0].0), hi, i - 1);
      if lo.Some? { LessTransitive(lo.value, items[0].0, items[i].0); }
    }
  }

  /** At most one listed key starts with `k`. */
  predicate SoleExtension<V>(items: Items<V>, k: string) {
    forall i, j :: 0 <= i < j < |items| ==> !(k <= items[i].0 && k <= items[j].0)
  }

  lemma SoleExtensionInParts<V>(a: Items<V>, key: string, val: V, b: Items<V>, k: string)
    requires SoleExtension(a + [(key, val)] + b, k)
    ensures SoleExtension(a, k) && SoleExtension(b, k)
    ensures forall i :: 0 <= i < |a| ==> !(k <= a[i].0 && k <= key)
  {
    var all := a + [(key, val)] + b;
    assert all[|a|] == (key, val);
    assert forall i :: 0 <= i < |a| ==> all[i] == a[i];
    assert forall i :: 0 <= i < |b| ==> all[|a| + 1 + i] == b[i];
  }

  /** Past a key that does not lie below `k`, placing goes on behind everything smaller. */
  lemma PlacePastSmaller<V>(l: Items<V>, lo: Bound, key: string, val: V, r: Items<V>, k: string, v: V)
    requires Rising(l, lo, Some(key)) && MemCmp(k, key) >= 0
    requires forall i :: 0 <= i < |l| ==> !(k <= l[i].0 && k <= key)
    ensures Place(l + [(key, val)] + r, k, v) == l + Place([(key, val)] + r, k, v)
  {
    forall i | 0 <= i < |l| ensures MemCmp(k, l[i].0) > 0 {
      ListedKeysAreWithin(l, lo, Some(key), i);
      AboveSmallerKeys(k, l[i].0, key);
    }
    PlaceBeyond(l, [(key, val)] + r, k, v);
    assert l + ([(key, val)] + r) == l + [(key, val)] + r;
  }

  lemma PlaceLeft<V>(l: Items<V>, key: string, val: V, r: Items<V>, k: string, v: V)
    requires MemCmp(k, key) < 0
    ensures Place(l + [(key, val)] + r, k, v) == Place(l, k, v) + [(key, val)] + r
  {
    PlaceInside(l, [(key, val)] + r, k, v);
    assert l + ([(key, val)] + r) == l + [(key, val)] + r;
    assert Place(l, k, v) + ([(key, val)] + r) == Place(l, k, v) + [(key, val)] + r;
  }

  lemma PlaceRight<V>(l: Items<V>, lo: Bound, key: string, val: V, r: Items<V>, k: string, v: V)
    requires Rising(l, lo, Some(key)) && SoleExtension(l + [(key, val)] + r, k)
    ensures MemCmp(k, key) > 0 ==> Place(l + [(key, val)] + r, k, v) == l + [(key, val)] + Place(r, k, v)
    ensures MemCmp(k, key) == 0 ==> Place(l + [(key, val)] + r, k, v) == l + [(k, v)] + r
  {
    if MemCmp(k, key) >= 0 {
      SoleExtensionInParts(l, key, val, r, k);
      PlacePastSmaller(l, lo, key, val, r, k, v);
      assert ([(key, val)] + r)[1..] == r;
    }
  }

  /** In a tree with at most one key that starts with `k`, the search path of an insertion ends
      at the place of `k` in the listing. */
  lemma {:induction false} InsertIsPlace<V>(t: Tree<V>, lo: Bound, hi: Bound, k: string, v: V)
    requires Between(t, lo, hi) && SoleExtension(Inorder(t), k)
    ensures Inorder(Insert(t, k, v)) == Place(Inorder(t), k, v)
  {
    if t.Node? {
      var l, r := Inorder(t.left), Inorder(t.right);
      SoleExtensionInParts(l, t.key, t.val, r, k);
      InsertIsPlace(t.left, lo, Some(t.key), k, v);
      InsertIsPlace(t.right, Some(t.key), hi, k, v);
      PlaceLeftOrRight(t, lo, hi, k, v);
    }
  }

  lemma PlaceLeftOrRight<V>(t: Tree<V>, lo: Bound, hi: Bound, k: string, v: V)
    requires t.Node? && Between(t, lo, hi) && SoleExtension(Inorder(t), k)
    ensures var l, mid, r, comp := Inorder(t.left), (t.key, t.val), Inorder(t.right), MemCmp(k, t.key);
            Place(Inorder(t), k, v) == if comp < 0 then Place(l, k, v) + [mid] + r
                                       else if comp > 0 then l + [mid] + Place(r, k, v)
                                       else l + [(k, v)] + r
  {
    OrderedIsRising(t.left, lo, Some(t.key));
    if MemCmp(k, t.key) < 0 {
      PlaceLeft(Inorder(t.left), t.key, t.val, Inorder(t.right), k, v);
    } else {
      PlaceRight(Inorder(t.left), lo, t.key, t.val, Inorder(t.right), k, v);
    }
  }

  lemma AboveSmallerKeys(k: string, small: string, big: string)
    requires Less(small, big) && MemCmp(k, big) >= 0 && !(k <= small && k <= big)
    ensures MemCmp(k, small) > 0
  {
    MemCmpVersusStrCmp(k, small);
    MemCmpVersusStrCmp(k, big);
    StrCmpFlip(k, small);
    StrCmpFlip(k, big);
    StrCmpEqual(k, small);
    StrCmpEqual(k, big);
    if Less(k, small) { LessTransitive(k, small, big); }
    if k <= big && !Less(small, k) { PrefixesAreContiguous(k, small, big); }
    if Less(big, k) { LessTransitive(small, big, k); }
  }
}

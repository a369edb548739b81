/** Printing a configuration and reading the text back. */
module IniRoundTrip {
  import opened Base
  import opened CString
  import opened ConfigTree
  import opened ConfigListing
  import opened IniGrammar
  import opened IniModel
  import opened IniParser
  import opened IniPrinter
  import T = IniText

  predicate IsText(s: string) {
    (forall c :: c in s ==> '\0' < c < 256 as char) && '\n' !in s && Trim(s) == s
  }

  /** Any row of bytes but NUL and newline with no blank at either end. */
  lemma IsTextIff(s: string)
    ensures IsText(s) <==> (forall c :: c in s ==> '\0' < c < 256 as char && c != '\n') && T.Bare(s)
  {
    var l, t, r := T.Split(s);
    T.TrimStrips(s, l, t, r);
    if T.Bare(s) {
      assert T.Surrounds(s, "", s, "") by { assert s == "" + s + ""; }
      T.TrimStrips(s, "", s, "");
    }
  }

  predicate PrintableName(s: string) {
    IsText(s) && s != "" && ']' !in s && |s| < 64
  }

  predicate PrintableKey(s: string) {
    IsText(s) && s != "" && '[' !in s && '=' !in s && s[0] != ';'
  }

  predicate PrintableEntries(items: Items<string>) {
    forall i :: 0 <= i < |items| ==> PrintableKey(items[i].0) && IsText(items[i].1)
  }

  predicate PrintableSections(items: Items<SectionTree>) {
    forall i :: 0 <= i < |items| ==> PrintableName(items[i].0) && PrintableEntries(Inorder(items[i].1))
  }

  predicate Printable(c: Config) {
    PrintableSections(Inorder(c))
  }

  // ----- what the printed text says -----

  function Puts(items: Items<string>): seq<Op> {
    if items == [] then [] else [Put(items[0].0, items[0].1)] + Puts(items[1..])
  }

  function SectionOps(name: string, section: SectionTree): seq<Op> {
    [Open(name)] + Puts(Inorder(section))
  }

  function AllOps(items: Items<SectionTree>): seq<Op> {
    if items == [] then [] else SectionOps(items[0].0, items[0].1) + AllOps(items[1..])
  }

  lemma EntryLineParses(k: string, v: string)
    requires PrintableKey(k) && IsText(v)
    ensures Line(k + "=" + v) == Parsed([Put(k, v)], true) && '\n' !in k + "=" + v
  {
    var s := k + "=" + v;
    UntilIs(s, {'[', '='}, |k|);
    assert s[..|k|] == k && s[|k| + 1..] == v;
  }

  lemma HeaderLineParses(name: string)
    requires PrintableName(name)
    ensures Line("[" + name + "]") == Parsed([Open(name)], true) && '\n' !in "[" + name + "]"
  {
    var s := "[" + name + "]";
    assert s[0] == '[' && s[1..] == name + "]";
    UntilIs(s, {'[', '='}, 0);
    UntilIs(name + "]", {']'}, |name|);
    assert (name + "]")[..|name|] == name && (name + "]")[|name| + 1..] == "";
    assert Pieces("") == NOTHING;
    ThenNothing(Parsed([Open(name)], true));
    assert Section(name + "]") == Then(Parsed([Open(name)], true), Pieces(""));
    assert Until(s, {'[', '='}) == 0 && Pieces(s) == Section(s[1..]);
  }

  lemma ThenOps(a: seq<Op>, b: seq<Op>, p: Parsed)
    ensures Then(Parsed(a, true), Then(Parsed(b, true), p)) == Then(Parsed(a + b, true), p)
  {
    ThenAssociates(Parsed(a, true), Parsed(b, true), p);
  }

  lemma {:induction false} EntriesParse(items: Items<string>, tail: string)
    requires PrintableEntries(items)
    ensures Document(PrintEntries(items) + tail) == Then(Parsed(Puts(items), true), Document(tail))
  {
    hide Document, Line, Then;
    if items == [] {
      ThenNothing(Document(tail));
      assert PrintEntries(items) + tail == tail;
    } else {
      var k, v, rest := items[0].0, items[0].1, PrintEntries(items[1..]) + tail;
      EntryLineParses(k, v);
      OneLine(k + "=" + v);
      assert PrintEntries(items) + tail == k + "=" + v + "\n" + rest;
      DocumentSplit(k + "=" + v, rest);
      EntriesParse(items[1..], tail);
      ThenOps([Put(k, v)], Puts(items[1..]), Document(tail));
    }
  }

  lemma SectionParses(name: string, section: SectionTree, tail: string)
    requires PrintableName(name) && PrintableEntries(Inorder(section))
    ensures Document(PrintSection(name, section) + tail)
         == Then(Parsed(SectionOps(name, section), true), Document(tail))
  {
    hide Document, Line, Then;
    var rest := PrintEntries(Inorder(section)) + tail;
    HeaderLineParses(name);
    OneLine("[" + name + "]");
    assert PrintSection(name, section) + tail == "[" + name + "]" + "\n" + rest;
    DocumentSplit("[" + name + "]", rest);
    EntriesParse(Inorder(section), tail);
    ThenOps([Open(name)], Puts(Inorder(section)), Document(tail));
  }

  /** The printed text parses into one opening per section and one entry per key. */
  lemma {:induction false} PrintedParses(items: Items<SectionTree>)
    requires PrintableSections(items)
    ensures Document(PrintSections(items)) == Parsed(AllOps(items), true)
  {
    if items == [] {
      OneLine("");
    } else {
      hide Document, SectionOps, PrintSection;
      SectionParses(items[0].0, items[0].1, PrintSections(items[1..]));
      PrintedParses(items[1..]);
    }
  }

  // ----- what the operations build -----

  function InsertAll<V>(t: Tree<V>, items: Items<V>): Tree<V>
    decreases |items|
  {
    if items == [] then t else InsertAll(Insert(t, items[0].0, items[0].1), items[1..])
  }

  /** A section read back from its own listing. */
  function Rebuilt(section: SectionTree): SectionTree {
    InsertAll(Leaf, Inorder(section))
  }

  lemma {:induction false} SetWhatWasInserted<V>(t: Tree<V>, k: string, v: V, w: V)
    ensures SetFound(Insert(t, k, v), k, w) == Insert(t, k, w)
  {
    StrCmpEqual(k, k);
    if t.Node? {
      MemCmpVersusStrCmp(k, t.key);
      SetWhatWasInserted(t.left, k, v, w);
      SetWhatWasInserted(t.right, k, v, w);
    }
  }

  /** Keys put after an opening gather in the section it inserted. */
  lemma {:induction false} PutsFillTheSection(c: Config, name: string, section: SectionTree, items: Items<string>)
    ensures Run(Reading(Insert(c, name, section), name), Puts(items))
         == Reading(Insert(c, name, InsertAll(section, items)), name)
    decreases |items|
  {
    if items != [] {
      var k, v := items[0].0, items[0].1;
      FindAfterInsert(c, name, section);
      SetWhatWasInserted(c, name, section, Insert(section, k, v));
      PutsFillTheSection(c, name, Insert(section, k, v), items[1..]);
      assert Puts(items)[0] == Put(k, v) && Puts(items)[1..] == Puts(items[1..]);
    }
  }

  lemma SectionRuns(r: Reading, name: string, section: SectionTree)
    ensures Run(r, SectionOps(name, section)) == Reading(Insert(r.config, name, Rebuilt(section)), name)
  {
    var ops := SectionOps(name, section);
    assert ops[0] == Open(name) && ops[1..] == Puts(Inorder(section));
    PutsFillTheSection(r.config, name, Leaf, Inorder(section));
  }

  function RebuiltAll(items: Items<SectionTree>): Items<SectionTree> {
    if items == [] then [] else [(items[0].0, Rebuilt(items[0].1))] + RebuiltAll(items[1..])
  }

  /** Reading a printed configuration inserts its rebuilt sections in order. */
  lemma {:induction false} AllRun(r: Reading, items: Items<SectionTree>)
    ensures Run(r, AllOps(items)).config == InsertAll(r.config, RebuiltAll(items))
    decreases |items|
  {
    if items != [] {
      RunConcat(r, SectionOps(items[0].0, items[0].1), AllOps(items[1..]));
      SectionRuns(r, items[0].0, items[0].1);
      AllRun(Run(r, SectionOps(items[0].0, items[0].1)), items[1..]);
    }
  }

  // ----- ascending insertion -----

  lemma {:induction false} RisingTail<V>(a: Items<V>, k: string, v: V)
    ensures Rising(a + [(k, v)], None, None) <==> Rising(a, None, Some(k))
  {
    RisingSplits(a, k, v, [], None, None);
    assert a + [(k, v)] + [] == a + [(k, v)];
  }

  /** A key above every listed key goes to the end. */
  lemma PlaceAtEnd<V>(a: Items<V>, k: string, v: V)
    requires Rising(a, None, Some(k))
    ensures Place(a, k, v) == a + [(k, v)]
    ensures forall i :: 0 <= i < |a| ==> Less(a[i].0, k) && !(k <= a[i].0)
  {
    forall i | 0 <= i < |a| ensures MemCmp(k, a[i].0) > 0 && Less(a[i].0, k) && !(k <= a[i].0) {
      ListedKeysAreWithin(a, None, Some(k), i);
      Beyond(k, a[i].0);
    }
    PlaceBeyond(a, [], k, v);
    assert a + [] == a;
  }

  lemma Beyond(k: string, small: string)
    requires Less(small, k)
    ensures MemCmp(k, small) > 0 && !(k <= small)
  {
    StrCmpFlip(k, small);
    StrCmpEqual(k, small);
    MemCmpVersusStrCmp(k, small);
  }

  /** Inserting a rising list above everything stored appends it to the listing: an ascending
      sequence of insertions never meets a longer key. */
  lemma {:induction false} InsertAscending<V>(t: Tree<V>, items: Items<V>)
    requires Rising(Inorder(t) + items, None, None)
    ensures Inorder(InsertAll(t, items)) == Inorder(t) + items
    decreases |items|
  {
    var a := Inorder(t);
    if items == [] {
      assert a + [] == a;
    } else {
      var k, v := items[0].0, items[0].1;
      assert a + items == a + [(k, v)] + items[1..];
      RisingSplits(a, k, v, items[1..], None, None);
      OrderedIsRising(t, None, None);
      RisingTail(a, k, v);
      RisingWider(a, None, Some(k));
      PlaceAtEnd(a, k, v);
      InsertIsPlace(t, None, None, k, v);
      InsertAscending(Insert(t, k, v), items[1..]);
    }
  }

  lemma {:induction false} RisingWider<V>(a: Items<V>, lo: Bound, hi: Bound)
    requires Rising(a, lo, hi)
    ensures Rising(a, lo, None)
  {
    if a != [] { RisingWider(a[1..], Some(a[0].0), hi); }
  }

  /** A section in order reads back with the same listing, hence the same map. */
  lemma RebuiltListing(section: SectionTree)
    requires Ordered(section)
    ensures Inorder(Rebuilt(section)) == Inorder(section) && Ordered(Rebuilt(section))
  {
    OrderedIsRising(section, None, None);
    assert Inorder(Leaf) + Inorder(section) == Inorder(section);
    InsertAscending(Leaf, Inorder(section));
    OrderedIsRising(Rebuilt(section), None, None);
  }

  // ----- the section every reading starts with -----

  /** Insertion of a new key in `strcmp` order. */
  function Insort<V>(items: Items<V>, k: string, v: V): Items<V> {
    if items == [] || Less(k, items[0].0) then [(k, v)] + items
    else [items[0]] + Insort(items[1..], k, v)
  }

  /** Some section name is "default" or one of its proper prefixes, which displaces it. */
  predicate Displaced<V>(items: Items<V>) {
    exists i :: 0 <= i < |items| && items[i].0 <= DEFAULT_NAME
  }

  function WithDefault<V>(items: Items<V>, empty: V): Items<V> {
    if Displaced(items) then items else Insort(items, DEFAULT_NAME, empty)
  }

  lemma {:induction false} InsortAtEnd<V>(items: Items<V>, lo: Bound, k: string, v: V)
    requires Rising(items, lo, Some(k))
    ensures Insort(items, k, v) == items + [(k, v)]
  {
    if items != [] {
      StrCmpFlip(k, items[0].0);
      InsortAtEnd(items[1..], Some(items[0].0), k, v);
    }
  }

  lemma {:induction false} InsortInside<V>(items: Items<V>, s: string, v: V, k: string, w: V)
    requires Less(k, s)
    ensures Insort(items + [(s, v)], k, w) == Insort(items, k, w) + [(s, v)]
  {
    if items != [] {
      assert (items + [(s, v)])[1..] == items[1..] + [(s, v)];
      InsortInside(items[1..], s, v, k, w);
    }
  }

  lemma {:induction false} InsortRises<V>(items: Items<V>, lo: Bound, hi: Bound, k: string, v: V)
    requires Rising(items, lo, hi) && Within(lo, k, hi)
    requires forall i :: 0 <= i < |items| ==> items[i].0 != k
    ensures Rising(Insort(items, k, v), lo, hi)
  {
    if items != [] {
      StrCmpFlip(k, items[0].0);
      StrCmpEqual(k, items[0].0);
      if Less(k, items[0].0) {
        assert Insort(items, k, v)[1..] == items;
      } else {
        InsortRises(items[1..], Some(items[0].0), hi, k, v);
      }
    }
  }

  lemma WithDefaultRises<V>(items: Items<V>, empty: V)
    requires Rising(items, None, None)
    ensures Rising(WithDefault(items, empty), None, None)
  {
    if !Displaced(items) {
      InsortRises(items, None, None, DEFAULT_NAME, empty);
    }
  }

  lemma {:induction false} RisingBelow<V>(items: Items<V>, lo: Bound, s: string, k: string)
    requires Rising(items, lo, Some(s)) && Less(s, k)
    ensures Rising(items, lo, Some(k))
  {
    if items != [] {
      LessTransitive(items[0].0, s, k);
      RisingBelow(items[1..], Some(items[0].0), s, k);
    }
  }

  lemma DisplacedByLast<V>(items: Items<V>, s: string, v: V)
    ensures Displaced(items + [(s, v)]) <==> Displaced(items) || s <= DEFAULT_NAME
  {
    var more := items + [(s, v)];
    if Displaced(items) {
      var i :| 0 <= i < |items| && items[i].0 <= DEFAULT_NAME;
      assert more[i] == items[i];
    }
    if s <= DEFAULT_NAME { assert more[|items|].0 <= DEFAULT_NAME; }
  }

  /** Opening the next section in order: a prefix of "default" takes the place of the waiting
      default section, any other name leaves it where it belongs. */
  lemma NextSection<V>(items: Items<V>, s: string, v: V, empty: V)
    requires Rising(items, None, Some(s))
    ensures Place(WithDefault(items, empty), s, v) == WithDefault(items + [(s, v)], empty)
    ensures SoleExtension(WithDefault(items, empty), s)
  {
    DisplacedByLast(items, s, v);
    PlaceAtEnd(items, s, v);
    if !Displaced(items) {
      NextBesideDefault(items, s, v, empty);
    }
  }

  lemma NextBesideDefault<V>(items: Items<V>, s: string, v: V, empty: V)
    requires Rising(items, None, Some(s)) && !Displaced(items)
    ensures var l := Insort(items, DEFAULT_NAME, empty);
            && SoleExtension(l, s)
            && Place(l, s, v) == if s <= DEFAULT_NAME then items + [(s, v)]
                                 else Insort(items + [(s, v)], DEFAULT_NAME, empty)
  {
    var l := Insort(items, DEFAULT_NAME, empty);
    MemCmpVersusStrCmp(s, DEFAULT_NAME);
    StrCmpEqual(s, DEFAULT_NAME);
    StrCmpFlip(s, DEFAULT_NAME);
    if Less(DEFAULT_NAME, s) {
      InsortInside(items, s, v, DEFAULT_NAME, empty);
      InsortRises(items, None, Some(s), DEFAULT_NAME, empty);
      PlaceAtEnd(l, s, v);
    } else {
      if s != DEFAULT_NAME { RisingBelow(items, None, s, DEFAULT_NAME); }
      InsortAtEnd(items, None, DEFAULT_NAME, empty);
      PlaceAtEnd(items, s, v);
      PlacePast(items, s, v, empty);
      if !(s <= DEFAULT_NAME) {
        RisingTail(items, s, v);
        RisingSplits(items, s, v, [], None, Some(DEFAULT_NAME));
        assert items + [(s, v)] + [] == items + [(s, v)];
        InsortAtEnd(items + [(s, v)], None, DEFAULT_NAME, empty);
      }
    }
  }

  lemma PlacePast<V>(items: Items<V>, s: string, v: V, empty: V)
    requires Rising(items, None, Some(s))
    ensures Place(items + [(DEFAULT_NAME, empty)], s, v) == items + Place([(DEFAULT_NAME, empty)], s, v)
  {
    forall i | 0 <= i < |items| ensures MemCmp(s, items[i].0) > 0 {
      ListedKeysAreWithin(items, None, Some(s), i);
      Beyond(s, items[i].0);
    }
    PlaceBeyond(items, [(DEFAULT_NAME, empty)], s, v);
  }

  /** Opening a rising list of sections on top of the one every reading starts with. */
  lemma {:induction false} InsertSections<V>(t: Tree<V>, done: Items<V>, rest: Items<V>, empty: V)
    requires Inorder(t) == WithDefault(done, empty) && Rising(done + rest, None, None)
    ensures Inorder(InsertAll(t, rest)) == WithDefault(done + rest, empty)
    decreases |rest|
  {
    if rest == [] {
      assert done + [] == done;
    } else {
      var s, v := rest[0].0, rest[0].1;
      assert done + rest == done + [(s, v)] + rest[1..];
      RisingSplits(done, s, v, rest[1..], None, None);
      RisingWider(done, None, Some(s));
      WithDefaultRises(done, empty);
      OrderedIsRising(t, None, None);
      NextSection(done, s, v, empty);
      InsertIsPlace(t, None, None, s, v);
      InsertSections(Insert(t, s, v), done + [(s, v)], rest[1..], empty);
    }
  }

  /** A section header at the end of an accepted text leaves its section empty, whatever stood in it
      before. */
  lemma ReopenedTextForgets(text: string, name: string, k: string)
    requires Load(text).Some? && PrintableName(name)
    ensures var t := text + "\n" + ("[" + name + "]");
            Load(t).Some? && Find(Load(t).value, name).Some? && GetEntry(Load(t).value, name, k) == None
  {
    hide Line, Lines, AllLines, Trim, Run, PrintableName;
    var header := "[" + name + "]";
    HeaderLineParses(name);
    OneLine(header);
    DocumentSplit(text, header);
    RunOne(Start(), Document(text).ops, Open(name));
    ReopeningForgets(Run(Start(), Document(text).ops), name, k);
  }

  // ----- the round trip -----

  /** A configuration as the map of maps it stands for. */
  function MapOfMaps(c: Config): map<string, map<string, string>> {
    map s | s in Keys(c) :: ToMap(Lookup(c, s).value)
  }

  /** "default" or one of its proper prefixes names a section. */
  predicate CoversDefault(c: Config) {
    exists s :: s in Keys(c) && s <= DEFAULT_NAME
  }

  /** What reading the printed text gives. */
  function Reread(c: Config): Config {
    InsertAll(OpenSection(Leaf, DEFAULT_NAME), RebuiltAll(Inorder(c)))
  }

  lemma LoadOfPrint(c: Config)
    requires Printable(c)
    ensures Load(Print(c)) == Some(Reread(c))
  {
    PrintedParses(Inorder(c));
    AllRun(Start(), Inorder(c));
  }

  ghost predicate SectionsOrdered(items: Items<SectionTree>) {
    forall i :: 0 <= i < |items| ==> Ordered(items[i].1)
  }

  lemma {:induction false} RebuiltKeepsNames(items: Items<SectionTree>, lo: Bound, hi: Bound)
    ensures |RebuiltAll(items)| == |items|
    ensures forall i :: 0 <= i < |items| ==> RebuiltAll(items)[i] == (items[i].0, Rebuilt(items[i].1))
    ensures Rising(RebuiltAll(items), lo, hi) <==> Rising(items, lo, hi)
  {
    if items != [] {
      RebuiltKeepsNames(items[1..], Some(items[0].0), hi);
      assert RebuiltAll(items)[1..] == RebuiltAll(items[1..]);
    }
  }

  lemma RereadListing(c: Config)
    requires InOrder(c)
    ensures Inorder(Reread(c)) == WithDefault(RebuiltAll(Inorder(c)), Leaf) && Ordered(Reread(c))
  {
    var items := Inorder(c);
    OrderedIsRising(c, None, None);
    RebuiltKeepsNames(items, None, None);
    var t: Config := OpenSection(Leaf, DEFAULT_NAME);
    var none: Items<SectionTree> := [];
    assert !Displaced(none);
    assert Inorder(t) == [(DEFAULT_NAME, Leaf)] == WithDefault(none, Leaf);
    assert none + RebuiltAll(items) == RebuiltAll(items);
    InsertSections(t, none, RebuiltAll(items), Leaf);
    WithDefaultRises<SectionTree>(RebuiltAll(items), Leaf);
    OrderedIsRising(Reread(c), None, None);
  }

  lemma {:induction false} AtRebuilt(items: Items<SectionTree>, s: string)
    ensures At(RebuiltAll(items), s) == if At(items, s).Some? then Some(Rebuilt(At(items, s).value)) else None
  {
    if items != [] {
      assert RebuiltAll(items)[1..] == RebuiltAll(items[1..]);
      AtRebuilt(items[1..], s);
    }
  }

  lemma {:induction false} AtInsort<V>(items: Items<V>, k: string, v: V, x: string)
    requires At(items, k) == None
    ensures At(Insort(items, k, v), x) == if x == k then Some(v) else At(items, x)
  {
    if items == [] || Less(k, items[0].0) {
      assert ([(k, v)] + items)[1..] == items;
    } else {
      assert ([items[0]] + Insort(items[1..], k, v))[1..] == Insort(items[1..], k, v);
      AtInsort(items[1..], k, v, x);
    }
  }

  lemma {:induction false} AtFinds<V>(items: Items<V>, k: string) returns (i: nat)
    ensures At(items, k).Some? ==> i < |items| && items[i] == (k, At(items, k).value)
    ensures At(items, k) == None ==> forall j :: 0 <= j < |items| ==> items[j].0 != k
  {
    i := 0;
    if items != [] && items[0].0 != k {
      var j := AtFinds(items[1..], k);
      i := j + 1;
    }
  }

  /** Names are displaced in the listing exactly when the tree covers "default". */
  lemma DisplacedIsCovered(c: Config)
    requires Ordered(c)
    ensures Displaced(Inorder(c)) <==> CoversDefault(c)
    ensures Displaced(RebuiltAll(Inorder(c))) <==> CoversDefault(c)
  {
    var items := Inorder(c);
    RebuiltKeepsNames(items, None, None);
    if Displaced(items) {
      var i :| 0 <= i < |items| && items[i].0 <= DEFAULT_NAME;
      assert RebuiltAll(items)[i].0 <= DEFAULT_NAME;
      var j := AtFinds(items, items[i].0);
      ListingIsLookup(c, None, None, items[i].0);
      assert items[i].0 in Keys(c);
    }
    if CoversDefault(c) {
      var s :| s in Keys(c) && s <= DEFAULT_NAME;
      ListingIsLookup(c, None, None, s);
      var i := AtFinds(items, s);
      assert items[i].0 <= DEFAULT_NAME;
    }
  }

  /** Each section of the reread configuration is the rebuilt one; a default section appears when
      nothing has taken its place. */
  lemma RereadSection(c: Config, s: string)
    requires InOrder(c)
    ensures Lookup(Reread(c), s)
         == if Lookup(c, s).Some? then Some(Rebuilt(Lookup(c, s).value))
            else if s == DEFAULT_NAME && !CoversDefault(c) then Some(Leaf)
            else None
  {
    var items := Inorder(c);
    RereadListing(c);
    DisplacedIsCovered(c);
    ListingIsLookup(c, None, None, s);
    ListingIsLookup(Reread(c), None, None, s);
    AtRebuilt(items, s);
    if !CoversDefault(c) {
      ListingIsLookup(c, None, None, DEFAULT_NAME);
      AtRebuilt(items, DEFAULT_NAME);
      assert DEFAULT_NAME !in Keys(c);
      AtInsort<SectionTree>(RebuiltAll(items), DEFAULT_NAME, Leaf, s);
    }
  }

  lemma RebuiltMap(section: SectionTree)
    requires Ordered(section)
    ensures ToMap(Rebuilt(section)) == ToMap(section) && Ordered(Rebuilt(section))
  {
    RebuiltListing(section);
    forall k ensures Lookup(Rebuilt(section), k) == Lookup(section, k) {
      ListingIsLookup(section, None, None, k);
      ListingIsLookup(Rebuilt(section), None, None, k);
    }
  }

  function SectionMap(c: Config, s: string): Option<map<string, string>> {
    if Lookup(c, s).Some? then Some(ToMap(Lookup(c, s).value)) else None
  }

  lemma RereadMap(c: Config, s: string)
    requires InOrder(c)
    ensures SectionMap(Reread(c), s)
         == if SectionMap(c, s) == None && s == DEFAULT_NAME && !CoversDefault(c) then Some(map[])
            else SectionMap(c, s)
    ensures Lookup(Reread(c), s).Some? ==> Ordered(Lookup(Reread(c), s).value)
  {
    hide Reread, CoversDefault, Rebuilt;
    RereadSection(c, s);
    if Lookup(c, s).Some? { RebuiltMap(Lookup(c, s).value); }
  }

  lemma MapsFromSections(c: Config, d: Config)
    requires forall s :: SectionMap(d, s) == SectionMap(c, s)
    ensures MapOfMaps(d) == MapOfMaps(c)
  {
    forall s ensures s in Keys(c) <==> s in Keys(d) {
      assert SectionMap(d, s) == SectionMap(c, s);
    }
    forall s | s in Keys(c) ensures MapOfMaps(c)[s] == MapOfMaps(d)[s] {
      assert SectionMap(d, s) == SectionMap(c, s);
    }
  }

  lemma MapsWithDefault(c: Config, d: Config)
    requires SectionMap(c, DEFAULT_NAME) == None
    requires forall s :: SectionMap(d, s) == if s == DEFAULT_NAME then Some(map[]) else SectionMap(c, s)
    ensures MapOfMaps(d) == MapOfMaps(c)[DEFAULT_NAME := map[]] && MapOfMaps(d) != MapOfMaps(c)
  {
    forall s ensures s in Keys(d) <==> s in Keys(c) || s == DEFAULT_NAME {
      assert SectionMap(d, s) == if s == DEFAULT_NAME then Some(map[]) else SectionMap(c, s);
    }
    forall s | s in Keys(d)
      ensures MapOfMaps(d)[s] == if s == DEFAULT_NAME then map[] else MapOfMaps(c)[s]
    {
      assert SectionMap(d, s) == if s == DEFAULT_NAME then Some(map[]) else SectionMap(c, s);
    }
    assert DEFAULT_NAME in MapOfMaps(d) && DEFAULT_NAME !in MapOfMaps(c);
  }

  /** Printing and reading back is the identity on the map of maps exactly when "default" or one
      of its proper prefixes names a section; otherwise an empty default section appears. */
  lemma RoundTrip(c: Config)
    requires InOrder(c) && Printable(c)
    ensures Load(Print(c)).Some?
    ensures var d := Load(Print(c)).value;
            && InOrder(d)
            && MapOfMaps(d) == (if CoversDefault(c) then MapOfMaps(c) else MapOfMaps(c)[DEFAULT_NAME := map[]])
            && (MapOfMaps(d) == MapOfMaps(c) <==> CoversDefault(c))
  {
    hide Reread, MapOfMaps, SectionMap, Load, Print, Printable, Ordered, ToMap;
    LoadOfPrint(c);
    RereadListing(c);
    forall s
      ensures SectionMap(Reread(c), s)
           == if SectionMap(c, s) == None && s == DEFAULT_NAME && !CoversDefault(c) then Some(map[])
              else SectionMap(c, s)
      ensures Lookup(Reread(c), s).Some? ==> Ordered(Lookup(Reread(c), s).value)
    {
      RereadMap(c, s);
    }
    if CoversDefault(c) {
      MapsFromSections(c, Reread(c));
    } else {
      DefaultIsFree(c);
      MapsWithDefault(c, Reread(c));
    }
  }

  lemma DefaultIsFree(c: Config)
    requires !CoversDefault(c)
    ensures SectionMap(c, DEFAULT_NAME) == None
  {
    assert DEFAULT_NAME !in Keys(c);
  }

  // ----- the second print -----

  lemma {:induction false} RebuiltPrints(items: Items<SectionTree>)
    requires SectionsOrdered(items)
    ensures PrintSections(RebuiltAll(items)) == PrintSections(items)
  {
    if items != [] {
      RebuiltListing(items[0].1);
      assert RebuiltAll(items)[1..] == RebuiltAll(items[1..]);
      RebuiltPrints(items[1..]);
    }
  }

  lemma {:induction false} InsortPrintsMore(items: Items<SectionTree>, k: string, v: SectionTree)
    ensures |PrintSections(Insort(items, k, v))| == |PrintSections(items)| + |PrintSection(k, v)|
  {
    hide PrintSection;
    if items == [] || Less(k, items[0].0) {
      assert ([(k, v)] + items)[1..] == items;
    } else {
      assert ([items[0]] + Insort(items[1..], k, v))[1..] == Insort(items[1..], k, v);
      InsortPrintsMore(items[1..], k, v);
    }
  }

  lemma SectionsAreOrdered(c: Config)
    requires InOrder(c)
    ensures SectionsOrdered(Inorder(c))
  {
    var items := Inorder(c);
    OrderedIsRising(c, None, None);
    forall i | 0 <= i < |items| ensures Ordered(items[i].1) {
      ListingIsLookup(c, None, None, items[i].0);
      AtOfRising(items, None, i);
    }
  }

  lemma {:induction false} AtOfRising<V>(items: Items<V>, lo: Bound, i: nat)
    requires Rising(items, lo, None) && i < |items|
    ensures At(items, items[i].0) == Some(items[i].1)
  {
    if i > 0 {
      ListedKeysAreWithin(items[1..], Some(items[0].0), None, i - 1);
      StrCmpEqual(items[0].0, items[i].0);
      AtOfRising(items[1..], Some(items[0].0), i - 1);
    }
  }

  /** A second print is byte for byte the first exactly when no default section had to appear. */
  lemma SecondPrint(c: Config)
    requires InOrder(c) && Printable(c)
    ensures Load(Print(c)).Some?
    ensures Print(Load(Print(c)).value) == Print(c) <==> CoversDefault(c)
  {
    LoadOfPrint(c);
    RereadListing(c);
    DisplacedIsCovered(c);
    SectionsAreOrdered(c);
    RebuiltPrints(Inorder(c));
    InsortPrintsMore(RebuiltAll(Inorder(c)), DEFAULT_NAME, Leaf);
    assert |PrintSection(DEFAULT_NAME, Leaf)| > 0;
  }

  predicate Bytes(s: string) {
    forall c :: c in s ==> '\0' < c < 256 as char
  }

  lemma {:induction false} EntriesAreBytes(items: Items<string>)
    requires PrintableEntries(items)
    ensures Bytes(PrintEntries(items))
  {
    if items != [] { EntriesAreBytes(items[1..]); }
  }

  lemma {:induction false} SectionsAreBytes(items: Items<SectionTree>)
    requires PrintableSections(items)
    ensures Bytes(PrintSections(items))
    ensures forall op :: op in AllOps(items) && op.Open? ==> |op.name| < MAX_SECTION_SIZE
  {
    if items != [] {
      EntriesAreBytes(Inorder(items[0].1));
      assert Bytes(HeaderLine(items[0].0));
      PutsAreNoOpens(Inorder(items[0].1));
      SectionsAreBytes(items[1..]);
    }
  }

  /** The printed text is text the parser can be handed. */
  lemma PrintedIsReadable(c: Config)
    requires Printable(c)
    ensures Readable(Print(c))
  {
    SectionsAreBytes(Inorder(c));
    PrintedParses(Inorder(c));
  }

  lemma {:induction false} PutsAreNoOpens(items: Items<string>)
    ensures forall op :: op in Puts(items) ==> op.Put?
  {
    if items != [] { PutsAreNoOpens(items[1..]); }
  }
}

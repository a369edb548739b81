/** What a text means whose names keep apart, without any tree: the last entry of a key since its
    section was last opened. */
module IniMeaning {
  import opened Base
  import opened CString
  import opened ConfigTree
  import opened IniGrammar
  import opened IniModel

  /** The section that takes the next key. */
  function Current(ops: seq<Op>): string {
    if ops == [] then DEFAULT_NAME
    else match ops[|ops| - 1]
      case Open(name) => name
      case Put(_, _) => Current(ops[..|ops| - 1])
  }

  /** The last value put under the key since the section was last opened. */
  function LastPut(ops: seq<Op>, s: string, k: string): Option<string> {
    if ops == [] then None
    else
      var before := ops[..|ops| - 1];
      match ops[|ops| - 1]
      case Open(name) => if name == s then None else LastPut(before, s, k)
      case Put(key, value) => if Current(before) == s && key == k then Some(value) else LastPut(before, s, k)
  }

  predicate Opened(ops: seq<Op>, s: string) {
    s == DEFAULT_NAME || Open(s) in ops
  }

  /** The next operation finds its place: its name is there already or is no proper prefix of one
      that is. Keys that a re-opening has dropped do not count. */
  ghost predicate Fits(before: seq<Op>, op: Op) {
    match op
    case Open(name) => Opened(before, name) || forall s :: Opened(before, s) ==> !ProperPrefix(name, s)
    case Put(key, _) =>
      var current := Current(before);
      || LastPut(before, current, key).Some?
      || forall k :: LastPut(before, current, k).Some? ==> !ProperPrefix(key, k)
  }

  ghost predicate AllFit(ops: seq<Op>) {
    ops != [] ==> AllFit(ops[..|ops| - 1]) && Fits(ops[..|ops| - 1], ops[|ops| - 1])
  }

  /** What a caller can see of a configuration is what the operations mean. */
  ghost predicate ReadsAs(c: Config, ops: seq<Op>) {
    && (forall s :: Find(c, s).Some? <==> Opened(ops, s))
    && (forall s, k :: GetEntry(c, s, k) == LastPut(ops, s, k))
  }

  // ----- the trees behind it -----

  ghost predicate SectionMeans(section: SectionTree, ops: seq<Op>, s: string) {
    Ordered(section) && StopsAtItsKeys(section) && forall k :: Lookup(section, k) == LastPut(ops, s, k)
  }

  /** The section stored under `s` is what the operations make of it. */
  ghost predicate MeansAt(c: Config, ops: seq<Op>, s: string) {
    match Lookup(c, s)
    case None => !Opened(ops, s)
    case Some(section) => Opened(ops, s) && SectionMeans(section, ops, s)
  }

  ghost predicate Means(r: Reading, ops: seq<Op>) {
    && r.current == Current(ops) && Opened(ops, r.current) && Ordered(r.config) && StopsAtItsKeys(r.config)
    && forall s :: MeansAt(r.config, ops, s)
  }

  lemma StartMeans()
    ensures Means(Start(), [])
  {
    assert forall s :: s != DEFAULT_NAME ==> Lookup(Start().config, s) == None;
  }

  lemma OpenedAfter(ops: seq<Op>, op: Op, s: string)
    ensures Opened(ops + [op], s) <==> Opened(ops, s) || op == Open(s)
  {}

  /** A name has its place exactly when the insertion of it is clean. */
  lemma OpenFitsIffClean(r: Reading, ops: seq<Op>, name: string)
    requires Means(r, ops)
    ensures Fits(ops, Open(name)) <==> Clean(r.config, name)
  {
    forall s ensures Opened(ops, s) <==> s in ToMap(r.config) { assert MeansAt(r.config, ops, s); }
    if !Opened(ops, name) { CleanMeansNoExtension(r.config, name); }
  }

  lemma PutFitsIffClean(r: Reading, ops: seq<Op>, key: string, value: string)
    requires Means(r, ops)
    ensures Lookup(r.config, r.current).Some? && Find(r.config, r.current) == Lookup(r.config, r.current)
    ensures SectionMeans(Lookup(r.config, r.current).value, ops, r.current)
    ensures Fits(ops, Put(key, value)) <==> Clean(Lookup(r.config, r.current).value, key)
  {
    assert MeansAt(r.config, ops, r.current);
    FindIsLookup(r.config, None, None, r.current);
    var section := Lookup(r.config, r.current).value;
    forall k ensures LastPut(ops, r.current, k).Some? <==> k in ToMap(section) {}
    if LastPut(ops, r.current, key) == None { CleanMeansNoExtension(section, key); }
  }

  lemma OpenKeepsMeaning(r: Reading, ops: seq<Op>, name: string)
    requires Means(r, ops) && Fits(ops, Open(name))
    ensures Means(Do(r, Open(name)), ops + [Open(name)])
  {
    var after := ops + [Open(name)];
    assert after[..|ops|] == ops;
    OpenFitsIffClean(r, ops, name);
    OpenLeavesOthers(r.config, name);
    CleanInsertStopsAtKeys(r.config, name, Leaf);
    forall s ensures MeansAt(OpenSection(r.config, name), after, s) {
      assert MeansAt(r.config, ops, s);
      if s != name { assert Lookup(OpenSection(r.config, name), s) == Lookup(r.config, s); }
      OpenedAfter(ops, Open(name), s);
    }
  }

  lemma {:induction false} SetFoundStops<V>(t: Tree<V>, k: string, v: V, y: string)
    ensures StopKey(SetFound(t, k, v), y) == StopKey(t, y)
  {
    if t.Node? {
      SetFoundStops(t.left, k, v, y);
      SetFoundStops(t.right, k, v, y);
      StrCmpEqual(k, t.key);
    }
  }

  lemma FilledMeans(section: SectionTree, ops: seq<Op>, key: string, value: string)
    requires SectionMeans(section, ops, Current(ops)) && Clean(section, key)
    ensures SectionMeans(Insert(section, key, value), ops + [Put(key, value)], Current(ops))
  {
    var after := ops + [Put(key, value)];
    assert after[..|ops|] == ops;
    CleanInsertKeepsOrder(section, None, None, key, value);
    CleanInsertStopsAtKeys(section, key, value);
    forall k ensures Lookup(Insert(section, key, value), k) == LastPut(after, Current(ops), k) {
      CleanInsertAt(section, None, None, key, value, k);
    }
  }

  lemma PutKeepsMeaning(r: Reading, ops: seq<Op>, key: string, value: string)
    requires Means(r, ops) && Fits(ops, Put(key, value))
    ensures Means(Do(r, Put(key, value)), ops + [Put(key, value)])
  {
    var after := ops + [Put(key, value)];
    assert after[..|ops|] == ops;
    PutFitsIffClean(r, ops, key, value);
    var filled := Insert(Lookup(r.config, r.current).value, key, value);
    FilledMeans(Lookup(r.config, r.current).value, ops, key, value);
    SetFoundAt(r.config, r.current, filled, r.current);
    forall s ensures MeansAt(SetFound(r.config, r.current, filled), after, s)
             ensures Lookup(SetFound(r.config, r.current, filled), s).Some? ==>
                       StopKey(SetFound(r.config, r.current, filled), s) == Some(s)
    {
      SetFoundAt(r.config, r.current, filled, s);
      SetFoundStops(r.config, r.current, filled, s);
      assert MeansAt(r.config, ops, s);
      OpenedAfter(ops, Put(key, value), s);
    }
  }

  lemma MeansReads(r: Reading, ops: seq<Op>)
    requires Means(r, ops)
    ensures ReadsAs(r.config, ops) && InOrder(r.config)
  {
    forall s ensures Lookup(r.config, s).Some? ==> Ordered(Lookup(r.config, s).value)
             ensures Find(r.config, s) == Lookup(r.config, s) && (Find(r.config, s).Some? <==> Opened(ops, s))
    {
      assert MeansAt(r.config, ops, s);
      FindIsLookup(r.config, None, None, s);
    }
    forall s, k ensures GetEntry(r.config, s, k) == LastPut(ops, s, k) {
      assert MeansAt(r.config, ops, s);
      if Lookup(r.config, s).Some? { FindIsLookup(Lookup(r.config, s).value, None, None, k); }
      else { NeverOpened(ops, s, k); }
    }
  }

  lemma {:induction false} NeverOpened(ops: seq<Op>, s: string, k: string)
    requires !Opened(ops, s)
    ensures LastPut(ops, s, k) == None && Current(ops) != s
  {
    if ops != [] {
      assert ops[|ops| - 1] in ops;
      NeverOpened(ops[..|ops| - 1], s, k);
    }
  }

  // ----- an operation that does not fit -----

  /** A section opened before is not found any more. */
  lemma OpenMisreads(r: Reading, ops: seq<Op>, name: string)
    requires Means(r, ops) && !Fits(ops, Open(name))
    ensures !ReadsAs(Do(r, Open(name)).config, ops + [Open(name)])
  {
    OpenFitsIffClean(r, ops, name);
    DisplacedIsNotFound(r.config, name);
    MeansReads(r, ops);
    var s :| s != name && Find(r.config, s).Some? && Find(OpenSection(r.config, name), s) == None;
    OpenedAfter(ops, Open(name), s);
  }

  /** A key put before has lost its value. */
  lemma PutMisreads(r: Reading, ops: seq<Op>, key: string, value: string)
    requires Means(r, ops) && !Fits(ops, Put(key, value))
    ensures !ReadsAs(Do(r, Put(key, value)).config, ops + [Put(key, value)])
  {
    var after := ops + [Put(key, value)];
    assert after[..|ops|] == ops;
    PutFitsIffClean(r, ops, key, value);
    var section := Lookup(r.config, r.current).value;
    var filled := Insert(section, key, value);
    var lost := StopKey(section, key).value;
    UncleanInsertLoses(section, None, None, key, value);
    if Find(filled, lost).Some? { FindFinds(filled, lost); }
    FindAfterSet(r.config, r.current, filled, r.current);
    assert LastPut(after, r.current, lost) == LastPut(ops, r.current, lost);
    assert GetEntry(Do(r, Put(key, value)).config, r.current, lost) == None;
  }

  // ----- whole texts -----

  lemma {:induction false} RunMeans(ops: seq<Op>)
    requires AllFit(ops)
    ensures Means(Run(Start(), ops), ops)
  {
    if ops == [] {
      StartMeans();
    } else {
      var n := |ops| - 1;
      RunMeans(ops[..n]);
      assert ops == ops[..n] + [ops[n]];
      RunOne(Start(), ops[..n], ops[n]);
      hide Run, Means, Fits;
      match ops[n] {
        case Open(name) => OpenKeepsMeaning(Run(Start(), ops[..n]), ops[..n], name);
        case Put(key, value) => PutKeepsMeaning(Run(Start(), ops[..n]), ops[..n], key, value);
      }
    }
  }

  ghost predicate ReadsAsAt(ops: seq<Op>, i: nat) {
    i <= |ops| ==> ReadsAs(Run(Start(), ops[..i]).config, ops[..i])
  }

  lemma ReadsAsUpToLast(before: seq<Op>, op: Op)
    ensures (forall i: nat :: ReadsAsAt(before + [op], i))
       <==> (forall i: nat :: ReadsAsAt(before, i))
            && ReadsAs(Run(Start(), before + [op]).config, before + [op])
  {
    var ops, n := before + [op], |before|;
    hide ReadsAs, Run;
    assert ops[..n + 1] == ops;
    forall i: nat | i <= n ensures ReadsAsAt(ops, i) <==> ReadsAsAt(before, i) {
      assert ops[..i] == before[..i];
    }
    if forall i: nat :: ReadsAsAt(ops, i) {
      assert ReadsAsAt(ops, n + 1);
      forall i: nat ensures ReadsAsAt(before, i) { assert ReadsAsAt(ops, i); }
    }
    if (forall i: nat :: ReadsAsAt(before, i)) && ReadsAs(Run(Start(), ops).config, ops) {
      forall i: nat ensures ReadsAsAt(ops, i) { assert ReadsAsAt(before, i); }
    }
  }

  /** The configuration reads as it should after every single operation if and only if every
      operation fits when its turn comes. */
  lemma {:induction false} ReadsAsThroughoutIff(ops: seq<Op>)
    ensures (forall i: nat :: ReadsAsAt(ops, i)) <==> AllFit(ops)
  {
    if ops == [] {
      StartMeans();
      MeansReads(Start(), []);
      assert ops[..0] == [];
    } else {
      var before, op := ops[..|ops| - 1], ops[|ops| - 1];
      assert ops == before + [op];
      hide ReadsAs, ReadsAsAt, Run, Fits;
      ReadsAsThroughoutIff(before);
      ReadsAsUpToLast(before, op);
      if AllFit(before) { LastReadsIff(before, op); }
    }
  }

  lemma LastReadsIff(before: seq<Op>, op: Op)
    requires AllFit(before)
    ensures ReadsAs(Run(Start(), before + [op]).config, before + [op]) <==> Fits(before, op)
  {
    RunMeans(before);
    RunOne(Start(), before, op);
    var r := Run(Start(), before);
    hide Run, Means, ReadsAs, Fits;
    match op {
      case Open(name) =>
        if Fits(before, op) { OpenKeepsMeaning(r, before, name); MeansReads(Do(r, op), before + [op]); }
        else { OpenMisreads(r, before, name); }
      case Put(key, value) =>
        if Fits(before, op) { PutKeepsMeaning(r, before, key, value); MeansReads(Do(r, op), before + [op]); }
        else { PutMisreads(r, before, key, value); }
    }
  }

  /** A loaded text whose operations fit: exactly the opened sections are there, each key has the
      last value put since its section was last opened, and every tree is in order. */
  lemma LoadMeans(text: string)
    requires Load(text).Some? && AllFit(Document(text).ops)
    ensures ReadsAs(Load(text).value, Document(text).ops) && InOrder(Load(text).value)
  {
    RunMeans(Document(text).ops);
    MeansReads(Run(Start(), Document(text).ops), Document(text).ops);
  }
}

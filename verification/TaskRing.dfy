/** The bounded task ring as atomic steps of any number of producer and consumer threads. Two
    counting semaphores and two mutexes guard two cursors; nothing locks a producer against a
    consumer. */
module TaskRing {
  import opened Base
  import opened Modular

  type Tid = nat

  /** Where a thread stands inside `Push(v)`: waiting for a slot, holding a slot token, holding
      the producer mutex, having written, having advanced the cursor, about to post. */
  datatype PushPc<V> = NoPush | PushWaits(v: V) | PushHasToken(v: V) | PushLocked(v: V)
                     | PushWrote(v: V) | PushMoved(v: V) | PushPosts(v: V)

  /** Where a thread stands inside `Pop`. */
  datatype PopPc<V> = NoPop | PopWaits | PopHasToken | PopLocked | PopRead(v: V) | PopMoved(v: V) | PopPosts(v: V)

  predicate PushBefore<V>(pc: PushPc<V>) { pc.PushHasToken? || pc.PushLocked? || pc.PushWrote? }

  predicate PushAfter<V>(pc: PushPc<V>) { pc.PushMoved? || pc.PushPosts? }

  predicate PushHolds<V>(pc: PushPc<V>) { pc.PushLocked? || pc.PushWrote? || pc.PushMoved? }

  predicate PopBefore<V>(pc: PopPc<V>) { pc.PopHasToken? || pc.PopLocked? || pc.PopRead? }

  predicate PopAfter<V>(pc: PopPc<V>) { pc.PopMoved? || pc.PopPosts? }

  predicate PopHolds<V>(pc: PopPc<V>) { pc.PopLocked? || pc.PopRead? || pc.PopMoved? }

  /** The shared memory, the threads, and the history of both cursors. */
  datatype Ring<V> = Ring(
    cache: seq<V>, producer: nat, consumer: nat,
    semProducer: nat, semConsumer: nat,
    mutexProducer: Option<Tid>, mutexConsumer: Option<Tid>,
    pushers: map<Tid, PushPc<V>>, poppers: map<Tid, PopPc<V>>,
    written: seq<V>, taken: seq<V>)

  datatype Action<V> =
    | CallPush(t: Tid, v: V) | WaitProducer(t: Tid) | LockProducer(t: Tid) | WriteSlot(t: Tid)
    | MoveProducer(t: Tid) | UnlockProducer(t: Tid) | PostConsumer(t: Tid)
    | CallPop(t: Tid) | WaitConsumer(t: Tid) | LockConsumer(t: Tid) | ReadSlot(t: Tid)
    | MoveConsumer(t: Tid) | UnlockConsumer(t: Tid) | PostProducer(t: Tid)

  predicate IsPushStep<V>(a: Action<V>) {
    a.CallPush? || a.WaitProducer? || a.LockProducer? || a.WriteSlot? || a.MoveProducer? || a.UnlockProducer?
    || a.PostConsumer?
  }

  /** A thread can take a step when its statement neither waits on a semaphore at zero nor on a
      mutex that is held. */
  predicate Enabled<V>(s: Ring<V>, a: Action<V>) {
    if IsPushStep(a) then
      a.t in s.pushers &&
      var pc := s.pushers[a.t];
      match a
      case CallPush(_, _) => pc.NoPush?
      case WaitProducer(_) => pc.PushWaits? && s.semProducer > 0
      case LockProducer(_) => pc.PushHasToken? && s.mutexProducer == None
      case WriteSlot(_) => pc.PushLocked?
      case MoveProducer(_) => pc.PushWrote?
      case UnlockProducer(_) => pc.PushMoved?
      case _ => pc.PushPosts?
    else
      a.t in s.poppers &&
      var pc := s.poppers[a.t];
      match a
      case CallPop(_) => pc.NoPop?
      case WaitConsumer(_) => pc.PopWaits? && s.semConsumer > 0
      case LockConsumer(_) => pc.PopHasToken? && s.mutexConsumer == None
      case ReadSlot(_) => pc.PopLocked?
      case MoveConsumer(_) => pc.PopRead?
      case UnlockConsumer(_) => pc.PopMoved?
      case _ => pc.PopPosts?
  }

  /** The cursor after its slot: back to the head from the tail. */
  function Advance(cursor: nat, n: nat): nat
    requires n > 0
  {
    if cursor == n - 1 then 0 else cursor + 1
  }

  predicate Sized<V>(s: Ring<V>) {
    |s.cache| > 0 && s.producer < |s.cache| && s.consumer < |s.cache|
  }

  function Do<V>(s: Ring<V>, a: Action<V>): Ring<V>
    requires Sized(s) && Enabled(s, a)
  {
    match a
    case CallPush(t, v) => s.(pushers := s.pushers[t := PushWaits(v)])
    case WaitProducer(t) =>
      s.(semProducer := s.semProducer - 1, pushers := s.pushers[t := PushHasToken(s.pushers[t].v)])
    case LockProducer(t) =>
      s.(mutexProducer := Some(t), pushers := s.pushers[t := PushLocked(s.pushers[t].v)])
    case WriteSlot(t) =>
      var v := s.pushers[t].v;
      s.(cache := s.cache[s.producer := v], pushers := s.pushers[t := PushWrote(v)])
    case MoveProducer(t) =>
      var v := s.pushers[t].v;
      s.(producer := Advance(s.producer, |s.cache|), pushers := s.pushers[t := PushMoved(v)],
         written := s.written + [v])
    case UnlockProducer(t) =>
      s.(mutexProducer := None, pushers := s.pushers[t := PushPosts(s.pushers[t].v)])
    case PostConsumer(t) =>
      s.(semConsumer := s.semConsumer + 1, pushers := s.pushers[t := NoPush])
    case CallPop(t) => s.(poppers := s.poppers[t := PopWaits])
    case WaitConsumer(t) =>
      s.(semConsumer := s.semConsumer - 1, poppers := s.poppers[t := PopHasToken])
    case LockConsumer(t) =>
      s.(mutexConsumer := Some(t), poppers := s.poppers[t := PopLocked])
    case ReadSlot(t) =>
      s.(poppers := s.poppers[t := PopRead(s.cache[s.consumer])])
    case MoveConsumer(t) =>
      var v := s.poppers[t].v;
      s.(consumer := Advance(s.consumer, |s.cache|), poppers := s.poppers[t := PopMoved(v)],
         taken := s.taken + [v])
    case UnlockConsumer(t) =>
      s.(mutexConsumer := None, poppers := s.poppers[t := PopPosts(s.poppers[t].v)])
    case PostProducer(t) =>
      s.(semProducer := s.semProducer + 1, poppers := s.poppers[t := NoPop])
  }

  /** The constructor's state: every slot free, no thread inside an operation. */
  predicate Initial<V>(s: Ring<V>) {
    && |s.cache| > 0 && s.producer == s.consumer == 0
    && s.semProducer == |s.cache| && s.semConsumer == 0
    && s.mutexProducer == s.mutexConsumer == None
    && (forall t :: t in s.pushers ==> s.pushers[t] == NoPush)
    && (forall t :: t in s.poppers ==> s.poppers[t] == NoPop)
    && |s.written| == |s.taken| == 0
  }

  // ----- counting threads -----

  function Members<P>(m: map<Tid, P>, f: P -> bool): set<Tid> {
    set t | t in m && f(m[t])
  }

  function Tally<P>(m: map<Tid, P>, f: P -> bool): nat {
    |Members(m, f)|
  }

  /** One thread moving on changes a tally by that thread alone. */
  lemma TallyStep<P>(m: map<Tid, P>, t: Tid, pc: P, f: P -> bool)
    requires t in m
    ensures Tally(m[t := pc], f) == Tally(m, f) - (if f(m[t]) then 1 else 0) + (if f(pc) then 1 else 0)
  {
    var rest := Members(m, f) - {t};
    assert Members(m, f) == if f(m[t]) then rest + {t} else rest;
    assert Members(m[t := pc], f) == if f(pc) then rest + {t} else rest;
  }

  lemma TallyPositive<P>(m: map<Tid, P>, t: Tid, f: P -> bool)
    requires t in m && f(m[t])
    ensures Tally(m, f) > 0
  {
    assert t in Members(m, f);
  }

  lemma TallyZero<P>(m: map<Tid, P>, f: P -> bool)
    requires forall t :: t in m ==> !f(m[t])
    ensures Tally(m, f) == 0
  {
    assert Members(m, f) == {};
  }

  // ----- the invariant -----

  /** Each semaphore plus the tokens threads carry is the number of unread or free slots. */
  ghost predicate TokensAddUp<V>(s: Ring<V>) {
    var unread := |s.written| - |s.taken|;
    && s.semConsumer + Tally(s.poppers, PopBefore) + Tally(s.pushers, PushAfter) == unread
    && s.semProducer + Tally(s.pushers, PushBefore) + Tally(s.poppers, PopAfter) == |s.cache| - unread
  }

  ghost predicate LocksAreHeld<V>(s: Ring<V>) {
    && (forall t :: t in s.pushers && PushHolds(s.pushers[t]) <==> s.mutexProducer == Some(t))
    && (forall t :: t in s.poppers && PopHolds(s.poppers[t]) <==> s.mutexConsumer == Some(t))
  }

  ghost predicate CursorsCount<V>(s: Ring<V>)
    requires |s.cache| > 0
  {
    && s.producer == |s.written| % |s.cache|
    && s.consumer == |s.taken| % |s.cache|
  }

  ghost predicate SlotsHold<V>(s: Ring<V>)
    requires |s.cache| > 0
  {
    && |s.taken| <= |s.written| && s.taken == s.written[..|s.taken|]
    && (forall i :: |s.taken| <= i < |s.written| ==> s.cache[i % |s.cache|] == s.written[i])
    && (forall t :: t in s.pushers && s.pushers[t].PushWrote? ==>
          s.cache[|s.written| % |s.cache|] == s.pushers[t].v)
    && (forall t :: t in s.poppers && s.poppers[t].PopRead? ==>
          |s.taken| < |s.written| && s.poppers[t].v == s.written[|s.taken|])
  }

  ghost predicate Inv<V>(s: Ring<V>) {
    Sized(s) && TokensAddUp(s) && LocksAreHeld(s) && CursorsCount(s) && SlotsHold(s)
  }

  lemma InitialInv<V>(s: Ring<V>)
    requires Initial(s)
    ensures Inv(s)
  {
    TallyZero(s.pushers, PushBefore);
    TallyZero(s.pushers, PushAfter);
    TallyZero(s.poppers, PopBefore);
    TallyZero(s.poppers, PopAfter);
  }

  lemma TokensPreserved<V>(s: Ring<V>, a: Action<V>)
    requires Inv(s) && Enabled(s, a)
    ensures TokensAddUp(Do(s, a))
  {
    hide LocksAreHeld, CursorsCount, SlotsHold;
    var r := Do(s, a);
    if IsPushStep(a) {
      TallyStep(s.pushers, a.t, r.pushers[a.t], PushBefore);
      TallyStep(s.pushers, a.t, r.pushers[a.t], PushAfter);
      assert r.pushers == s.pushers[a.t := r.pushers[a.t]];
    } else {
      TallyStep(s.poppers, a.t, r.poppers[a.t], PopBefore);
      TallyStep(s.poppers, a.t, r.poppers[a.t], PopAfter);
      assert r.poppers == s.poppers[a.t := r.poppers[a.t]];
    }
  }

  lemma LocksPreserved<V>(s: Ring<V>, a: Action<V>)
    requires Inv(s) && Enabled(s, a)
    ensures LocksAreHeld(Do(s, a))
  {
    hide TokensAddUp, CursorsCount, SlotsHold;
  }

  lemma ModAdvance(k: nat, n: nat)
    requires n > 0
    ensures k % n < n && Advance(k % n, n) == (k + 1) % n
  {
    var q := k / n;
    assert k == q * n + k % n;
    if k % n == n - 1 {
      assert k + 1 == (q + 1) * n;
      MultipleMod(q + 1, 0, n);
    } else {
      MultipleMod(q, k % n + 1, n);
    }
  }

  /** Positions less than one lap apart are different slots. */
  lemma PositionsDiffer(i: nat, j: nat, n: nat)
    requires i < j < i + n
    ensures i % n != j % n
  {
    var d := j / n - i / n;
    assert i == (i / n) * n + i % n && j == (j / n) * n + j % n;
    assert d * n == j - i + (i % n - j % n);
    MultipleBound(d, n);
  }

  lemma CursorsPreserved<V>(s: Ring<V>, a: Action<V>)
    requires Inv(s) && Enabled(s, a)
    ensures Sized(Do(s, a)) && CursorsCount(Do(s, a))
  {
    ModAdvance(|s.written|, |s.cache|);
    ModAdvance(|s.taken|, |s.cache|);
  }

  /** What the tokens say about the two threads nearest a slot. */
  lemma TokenBounds<V>(s: Ring<V>)
    requires Inv(s)
    ensures |s.taken| <= |s.written| <= |s.taken| + |s.cache|
    ensures forall t :: t in s.pushers && PushBefore(s.pushers[t]) ==> |s.written| < |s.taken| + |s.cache|
    ensures forall t :: t in s.poppers && PopBefore(s.poppers[t]) ==> |s.taken| < |s.written|
  {
    forall t | t in s.pushers && PushBefore(s.pushers[t]) ensures |s.written| < |s.taken| + |s.cache| {
      TallyPositive(s.pushers, t, PushBefore);
    }
    forall t | t in s.poppers && PopBefore(s.poppers[t]) ensures |s.taken| < |s.written| {
      TallyPositive(s.poppers, t, PopBefore);
    }
  }

  lemma WritePreserves<V>(s: Ring<V>, t: Tid)
    requires Inv(s) && Enabled(s, WriteSlot(t))
    ensures SlotsHold(Do(s, WriteSlot(t)))
  {
    TokenBounds(s);
    var n := |s.cache|;
    forall i | |s.taken| <= i < |s.written| ensures i % n != |s.written| % n {
      PositionsDiffer(i, |s.written|, n);
    }
    assert s.mutexProducer == Some(t);
  }

  lemma MoveProducerPreserves<V>(s: Ring<V>, t: Tid)
    requires Inv(s) && Enabled(s, MoveProducer(t))
    ensures SlotsHold(Do(s, MoveProducer(t)))
  {
    assert s.mutexProducer == Some(t);
    var r := Do(s, MoveProducer(t));
    assert r.written[..|s.taken|] == s.written[..|s.taken|];
  }

  lemma MoveConsumerPreserves<V>(s: Ring<V>, t: Tid)
    requires Inv(s) && Enabled(s, MoveConsumer(t))
    ensures SlotsHold(Do(s, MoveConsumer(t)))
  {
    assert s.mutexConsumer == Some(t);
    assert s.written[..|s.taken| + 1] == s.written[..|s.taken|] + [s.written[|s.taken|]];
  }

  lemma SlotsPreserved<V>(s: Ring<V>, a: Action<V>)
    requires Inv(s) && Enabled(s, a)
    ensures SlotsHold(Do(s, a))
  {
    match a
    case WriteSlot(t) => WritePreserves(s, t);
    case MoveProducer(t) => MoveProducerPreserves(s, t);
    case MoveConsumer(t) => MoveConsumerPreserves(s, t);
    case ReadSlot(t) => TokenBounds(s);
    case _ =>
  }

  /** Every step of every thread keeps the invariant. */
  lemma StepKeepsInv<V>(s: Ring<V>, a: Action<V>)
    requires Inv(s) && Enabled(s, a)
    ensures Sized(s) && Inv(Do(s, a))
  {
    TokensPreserved(s, a);
    LocksPreserved(s, a);
    CursorsPreserved(s, a);
    SlotsPreserved(s, a);
  }

  // ----- whole runs -----

  /** Some interleaving of steps leads from an initial state to `s`. */
  ghost predicate Reached<V>(start: Ring<V>, acts: seq<Action<V>>, s: Ring<V>)
    decreases |acts|
  {
    if acts == [] then s == start
    else Sized(start) && Enabled(start, acts[0]) && Reached(Do(start, acts[0]), acts[1..], s)
  }

  lemma {:induction false} RunKeepsInv<V>(start: Ring<V>, acts: seq<Action<V>>, s: Ring<V>)
    requires Inv(start) && Reached(start, acts, s)
    ensures Inv(s)
    decreases |acts|
  {
    if acts != [] {
      StepKeepsInv(start, acts[0]);
      RunKeepsInv(Do(start, acts[0]), acts[1..], s);
    }
  }

  lemma {:induction false} ReachedThen<V>(start: Ring<V>, acts: seq<Action<V>>, s: Ring<V>, a: Action<V>)
    requires Reached(start, acts, s) && Sized(s) && Enabled(s, a)
    ensures Reached(start, acts + [a], Do(s, a))
    decreases |acts|
  {
    hide Do, Enabled;
    if acts == [] {
      assert Reached(Do(s, a), [], Do(s, a));
    } else {
      ReachedThen(Do(start, acts[0]), acts[1..], s, a);
      assert (acts + [a])[1..] == acts[1..] + [a];
    }
  }

  /** Nothing is lost, duplicated or reordered: in every run the values read, in the order of the
      consumer cursor, are a prefix of the values written, in the order of the producer cursor. */
  lemma FirstInFirstOut<V>(start: Ring<V>, acts: seq<Action<V>>, s: Ring<V>)
    requires Initial(start) && Reached(start, acts, s)
    ensures s.taken <= s.written && |s.written| - |s.taken| <= |s.cache|
  {
    InitialInv(start);
    RunKeepsInv(start, acts, s);
    TokenBounds(s);
  }

  /** In every run: a producer about to write and a consumer about to read stand at different
      slots; a slot about to be written holds no unread value; a slot about to be read holds one. */
  lemma SlotsAreSafe<V>(start: Ring<V>, acts: seq<Action<V>>, s: Ring<V>, p: Tid, c: Tid)
    requires Initial(start) && Reached(start, acts, s)
    ensures Sized(s)
    ensures p in s.pushers && s.pushers[p].PushLocked? && c in s.poppers && s.poppers[c].PopLocked? ==>
              s.producer != s.consumer
    ensures p in s.pushers && s.pushers[p].PushLocked? ==>
              forall i :: |s.taken| <= i < |s.written| ==> i % |s.cache| != s.producer
    ensures c in s.poppers && s.poppers[c].PopLocked? ==>
              |s.taken| < |s.written| && s.cache[s.consumer] == s.written[|s.taken|]
  {
    InitialInv(start);
    RunKeepsInv(start, acts, s);
    TokenBounds(s);
    if p in s.pushers && s.pushers[p].PushLocked? {
      forall i | |s.taken| <= i < |s.written| ensures i % |s.cache| != s.producer {
        PositionsDiffer(i, |s.written|, |s.cache|);
      }
    }
  }

  /** The cursors coincide exactly when they are nothing or a whole ring apart. */
  lemma IsEmptyMeans<V>(start: Ring<V>, acts: seq<Action<V>>, s: Ring<V>)
    requires Initial(start) && Reached(start, acts, s)
    ensures s.consumer == s.producer <==> |s.written| - |s.taken| == 0 || |s.written| - |s.taken| == |s.cache|
  {
    InitialInv(start);
    RunKeepsInv(start, acts, s);
    TokenBounds(s);
    LapsApart(|s.taken|, |s.written|, |s.cache|);
  }

  lemma LapsApart(r: nat, w: nat, n: nat)
    requires n > 0 && r <= w <= r + n
    ensures r % n == w % n <==> w == r || w == r + n
  {
    if r < w < r + n { PositionsDiffer(r, w, n); }
    if w == r + n {
      assert w == (r / n + 1) * n + r % n;
      MultipleMod(r / n + 1, r % n, n);
    }
  }

  /** At most one thread inside each critical section. */
  lemma MutualExclusion<V>(start: Ring<V>, acts: seq<Action<V>>, s: Ring<V>, t: Tid, u: Tid)
    requires Initial(start) && Reached(start, acts, s)
    ensures t in s.pushers && u in s.pushers && PushHolds(s.pushers[t]) && PushHolds(s.pushers[u]) ==> t == u
    ensures t in s.poppers && u in s.poppers && PopHolds(s.poppers[t]) && PopHolds(s.poppers[u]) ==> t == u
  {
    InitialInv(start);
    RunKeepsInv(start, acts, s);
    if t in s.pushers && u in s.pushers && PushHolds(s.pushers[t]) && PushHolds(s.pushers[u]) {
      assert s.mutexProducer == Some(t) && s.mutexProducer == Some(u);
    }
    if t in s.poppers && u in s.poppers && PopHolds(s.poppers[t]) && PopHolds(s.poppers[u]) {
      assert s.mutexConsumer == Some(t) && s.mutexConsumer == Some(u);
    }
  }

  // ----- refinement of an abstract queue -----

  /** The abstract queue: what the producer cursor has passed and the consumer cursor has not. */
  function Queue<V>(s: Ring<V>): seq<V>
    requires |s.taken| <= |s.written|
  {
    s.written[|s.taken|..]
  }

  /** Each step is an enqueue by the advance of the producer cursor, a dequeue of the head by the
      advance of the consumer cursor, or invisible. */
  lemma StepRefinesQueue<V>(s: Ring<V>, a: Action<V>)
    requires Inv(s) && Enabled(s, a)
    ensures |Do(s, a).taken| <= |Do(s, a).written|
    ensures a.MoveProducer? ==> |Queue(s)| < |s.cache| && Queue(Do(s, a)) == Queue(s) + [s.pushers[a.t].v]
    ensures a.MoveConsumer? ==> Queue(s) != [] && [s.poppers[a.t].v] + Queue(Do(s, a)) == Queue(s)
    ensures !a.MoveProducer? && !a.MoveConsumer? ==> Queue(Do(s, a)) == Queue(s)
  {
    TokenBounds(s);
  }

  // ----- progress -----

  /** A looping producer at its next call, whatever it pushes. */
  predicate PushReady<V>(s: Ring<V>, t: Tid, v: V) {
    t in s.pushers && Enabled(s, match s.pushers[t]
                                 case NoPush => CallPush(t, v)
                                 case PushWaits(_) => WaitProducer(t)
                                 case PushHasToken(_) => LockProducer(t)
                                 case PushLocked(_) => WriteSlot(t)
                                 case PushWrote(_) => MoveProducer(t)
                                 case PushMoved(_) => UnlockProducer(t)
                                 case PushPosts(_) => PostConsumer(t))
  }

  predicate PopReady<V>(s: Ring<V>, t: Tid) {
    t in s.poppers && Enabled(s, match s.poppers[t]
                                 case NoPop => CallPop(t)
                                 case PopWaits => WaitConsumer(t)
                                 case PopHasToken => LockConsumer(t)
                                 case PopLocked => ReadSlot(t)
                                 case PopRead(_) => MoveConsumer(t)
                                 case PopMoved(_) => UnlockConsumer(t)
                                 case PopPosts(_) => PostProducer(t))
  }

  /** When every thread waits for a semaphore, all tokens are in the semaphores. */
  lemma AllWaiting<V>(s: Ring<V>)
    requires Inv(s)
    requires forall t :: t in s.pushers ==> s.pushers[t].PushWaits?
    requires forall t :: t in s.poppers ==> s.poppers[t].PopWaits?
    ensures s.semProducer + s.semConsumer == |s.cache|
  {
    TallyZero(s.pushers, PushBefore);
    TallyZero(s.pushers, PushAfter);
    TallyZero(s.poppers, PopBefore);
    TallyZero(s.poppers, PopAfter);
  }

  /** Only semaphores and mutexes make a thread wait. */
  lemma ReadyUnlessWaiting<V>(s: Ring<V>, t: Tid, v: V)
    requires Inv(s)
    ensures t in s.pushers && !PushReady(s, t, v) ==>
              if s.pushers[t].PushWaits? then s.semProducer == 0 else s.mutexProducer.Some?
    ensures t in s.poppers && !PopReady(s, t) ==>
              if s.poppers[t].PopWaits? then s.semConsumer == 0 else s.mutexConsumer.Some?
  {}

  /** The thread that holds a mutex is never made to wait. */
  lemma HolderIsReady<V>(s: Ring<V>, v: V)
    requires Inv(s)
    ensures s.mutexProducer.Some? ==> PushReady(s, s.mutexProducer.value, v)
    ensures s.mutexConsumer.Some? ==> PopReady(s, s.mutexConsumer.value)
  {}

  /** With a producer and a consumer about, some thread can always take a step: all producers and
      all consumers are never blocked at once. */
  lemma NeverStuck<V>(start: Ring<V>, acts: seq<Action<V>>, s: Ring<V>, p: Tid, c: Tid, v: V)
    requires Initial(start) && Reached(start, acts, s) && p in s.pushers && c in s.poppers
    ensures (exists t :: PushReady(s, t, v)) || (exists t :: PopReady(s, t))
  {
    InitialInv(start);
    RunKeepsInv(start, acts, s);
    HolderIsReady(s, v);
    if !(exists t :: PushReady(s, t, v)) && !(exists t :: PopReady(s, t)) {
      hide PushReady, PopReady;
      forall t ensures t in s.pushers ==> s.pushers[t].PushWaits?
               ensures t in s.poppers ==> s.poppers[t].PopWaits?
      {
        ReadyUnlessWaiting(s, t, v);
      }
      AllWaiting(s);
      ReadyUnlessWaiting(s, p, v);
      ReadyUnlessWaiting(s, c, v);
      assert false;
    }
  }
}

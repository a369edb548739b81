/** The whole monitor: capture feeds the task ring, any number of workers take packets from it,
    judge and free them, and accepted copies go through a lossy ring to the output thread. Every
    step of every thread inside the task ring is a step here. */
module Pipeline {
  import TR = TaskRing
  import opened PacketContent
  import opened PacketDecode
  import PB = PacketBytes

  /** What a worker does between two pops: nothing yet, holds a packet it took, or has settled the
      packet's fate and must still free it. */
  datatype Hand = Idle | Holding(id: nat) | Finished(id: nat)

  datatype Verdict = Rejected | Dropped | Sent

  /** A settled packet: its number in capture order, the worker, the fate, the decoded packet. */
  datatype Entry = Entry(id: nat, worker: TR.Tid, verdict: Verdict, packet: Packet)

  /** `captured[i]` is the packet numbered `i`; pointers in the task ring are such numbers. The
      last four fields and `takers` are histories. */
  datatype Pipe = Pipe(
    ring: TR.Ring<nat>, capturer: TR.Tid, useNull: bool, outCap: nat,
    captured: seq<Packet>, hands: map<TR.Tid, Hand>, out: seq<Entry>,
    takers: seq<TR.Tid>, settled: seq<Entry>, popped: seq<Entry>, freed: seq<(nat, TR.Tid)>)

  datatype Action =
    | Capture(p: Packet)
    | InRing(a: TR.Action<nat>)
    | Settle(t: TR.Tid)
    | Free(t: TR.Tid)
    | Deliver

  predicate IsHolding(h: Hand) { h.Holding? }

  predicate IsFinished(h: Hand) { h.Finished? }

  predicate Enabled(s: Pipe, a: Action) {
    match a
    case Capture(p) =>
      TR.Enabled(s.ring, TR.CallPush(s.capturer, |s.captured|)) && Complete(p.src) && p.anal == []
    case InRing(b) =>
      TR.Enabled(s.ring, b) && !b.CallPush? && (b.CallPop? ==> b.t in s.hands && s.hands[b.t] == Idle)
    case Settle(t) =>
      && t in s.ring.poppers && s.ring.poppers[t].NoPop?
      && t in s.hands && s.hands[t].Holding? && s.hands[t].id < |s.captured|
      && Complete(s.captured[s.hands[t].id].src)
    case Free(t) => t in s.hands && s.hands[t].Finished?
    case Deliver => s.out != []
  }

  function Judge(s: Pipe, p: Packet): Verdict
    requires Complete(p.src)
  {
    if !Accepted(p, s.useNull) then Rejected else if |s.out| >= s.outCap then Dropped else Sent
  }

  function Do(s: Pipe, a: Action): Pipe
    requires TR.Sized(s.ring) && Enabled(s, a)
  {
    match a
    case Capture(p) =>
      s.(ring := TR.Do(s.ring, TR.CallPush(s.capturer, |s.captured|)), captured := s.captured + [p])
    case InRing(b) =>
      var r := s.(ring := TR.Do(s.ring, b));
      if b.MoveConsumer? then
        r.(hands := s.hands[b.t := Holding(s.ring.poppers[b.t].v)], takers := s.takers + [b.t])
      else r
    case Settle(t) =>
      var id := s.hands[t].id;
      var p := s.captured[id];
      var e := Entry(id, t, Judge(s, p), Decoded(p));
      s.(hands := s.hands[t := Finished(id)], settled := s.settled + [e],
         out := if e.verdict == Sent then s.out + [e] else s.out)
    case Free(t) =>
      s.(hands := s.hands[t := Idle], freed := s.freed + [(s.hands[t].id, t)])
    case Deliver =>
      s.(out := s.out[1..], popped := s.popped + [s.out[0]])
  }

  function Packets(es: seq<Entry>): seq<Packet> {
    seq(|es|, i requires 0 <= i < |es| => es[i].packet)
  }

  /** On the contents of the output ring a settling worker does what the worker loop's body is
      proved to do: both add `PassedOn`. */
  lemma SettleIsDeal(s: Pipe, t: TR.Tid)
    requires TR.Sized(s.ring) && Enabled(s, Settle(t))
    ensures var p := s.captured[s.hands[t].id];
            Packets(Do(s, Settle(t)).out) == Packets(s.out)
              + PassedOn(p, s.useNull, |Packets(s.out)|, s.outCap)
  {
    assert |Packets(s.out)| == |s.out|;
  }

  /** One capture thread, any set of workers, any ring lengths, nothing captured. */
  predicate Initial(s: Pipe) {
    && TR.Initial(s.ring) && s.ring.pushers.Keys == {s.capturer} && s.hands.Keys == s.ring.poppers.Keys
    && (forall t :: t in s.hands ==> s.hands[t] == Idle)
    && s.captured == [] && s.out == [] && s.takers == [] && s.settled == [] && s.popped == [] && s.freed == []
  }

  // ----- the stream -----

  /** The entries with a given fate, in the order the fates were settled. */
  function With(v: Verdict, es: seq<Entry>): seq<Entry> {
    if es == [] then [] else
      var e := es[|es| - 1];
      With(v, es[..|es| - 1]) + if e.verdict == v then [e] else []
  }

  lemma WithAppends(v: Verdict, es: seq<Entry>, e: Entry)
    ensures With(v, es + [e]) == With(v, es) + if e.verdict == v then [e] else []
  {
    assert (es + [e])[..|es|] == es;
  }

  lemma {:induction false} FatesAddUp(es: seq<Entry>)
    ensures |es| == |With(Rejected, es)| + |With(Dropped, es)| + |With(Sent, es)|
  {
    if es != [] { FatesAddUp(es[..|es| - 1]); }
  }

  ghost predicate PerWorkerOrder(es: seq<Entry>) {
    forall i, j :: 0 <= i < j < |es| && es[i].worker == es[j].worker ==> es[i].id < es[j].id
  }

  ghost predicate AllDistinct(es: seq<Entry>) {
    forall i, j :: 0 <= i < j < |es| ==> es[i].id != es[j].id
  }

  lemma {:induction false} WithIsPart(v: Verdict, es: seq<Entry>)
    ensures forall e :: e in With(v, es) ==> e in es && e.verdict == v
  {
    if es != [] { WithIsPart(v, es[..|es| - 1]); }
  }

  /** A selection keeps the order and repeats nothing. */
  lemma {:induction false} WithKeepsOrder(v: Verdict, es: seq<Entry>)
    requires PerWorkerOrder(es) && AllDistinct(es)
    ensures PerWorkerOrder(With(v, es)) && AllDistinct(With(v, es))
  {
    if es != [] {
      var n := |es| - 1;
      WithKeepsOrder(v, es[..n]);
      WithIsPart(v, es[..n]);
      var front := With(v, es[..n]);
      forall i | 0 <= i < |front|
        ensures front[i].id != es[n].id && (front[i].worker == es[n].worker ==> front[i].id < es[n].id)
      {
        assert front[i] in es[..n];
      }
    }
  }

  // ----- the invariant -----

  predicate CaptureWaits(pc: TR.PushPc<nat>) {
    pc.PushWaits? || pc.PushHasToken? || pc.PushLocked? || pc.PushWrote?
  }

  /** Packets enter the task ring in the order they were captured; at most one has not entered. */
  ghost predicate CaptureOrder(s: Pipe) {
    && s.ring.pushers.Keys == {s.capturer}
    && (forall i :: 0 <= i < |s.ring.written| ==> s.ring.written[i] == i)
    && var pc := s.ring.pushers[s.capturer];
       if CaptureWaits(pc) then |s.captured| == |s.ring.written| + 1 && pc.v == |s.ring.written|
       else |s.captured| == |s.ring.written|
  }

  ghost predicate PacketsComplete(s: Pipe) {
    forall i :: 0 <= i < |s.captured| ==> Complete(s.captured[i].src) && s.captured[i].anal == []
  }

  /** Who has a packet in hand is who took it. */
  ghost predicate HandsMatch(s: Pipe) {
    && s.hands.Keys == s.ring.poppers.Keys && |s.takers| == |s.ring.taken|
    && (forall i :: 0 <= i < |s.takers| ==> s.takers[i] in s.hands)
    && (forall t :: t in s.hands ==> HandFits(s.hands[t], s.ring.poppers[t], s.takers, t))
  }

  ghost predicate HandFits(h: Hand, pc: TR.PopPc<nat>, takers: seq<TR.Tid>, t: TR.Tid) {
    && (h != Idle ==> h.id < |takers| && takers[h.id] == t)
    && (TR.PopAfter(pc) ==> h.Holding?)
    && (!TR.PopAfter(pc) && !pc.NoPop? ==> h == Idle)
  }

  /** The settled packets: each was taken by the worker that settled it, once, and is in no hand
      any more except to be freed. */
  ghost predicate SettledMatch(s: Pipe) {
    && |s.takers| == |s.settled| + TR.Tally(s.hands, IsHolding)
    && PerWorkerOrder(s.settled) && AllDistinct(s.settled)
    && (forall e :: e in s.settled ==> EntryFits(s, e))
  }

  ghost predicate EntryFits(s: Pipe, e: Entry) {
    && e.id < |s.takers| && e.id < |s.captured| && s.takers[e.id] == e.worker && e.worker in s.hands
    && (s.hands[e.worker].Holding? ==> e.id < s.hands[e.worker].id)
    && Complete(s.captured[e.id].src)
    && e.packet == Decoded(s.captured[e.id])
    && (e.verdict == Rejected <==> !Accepted(s.captured[e.id], s.useNull))
  }

  ghost predicate StreamMatches(s: Pipe) {
    s.popped + s.out == With(Sent, s.settled) && |s.out| <= s.outCap
  }

  /** Freed packets were taken by the worker that freed them, and are in nobody's hand. */
  ghost predicate FreedMatch(s: Pipe) {
    && |s.settled| == |s.freed| + TR.Tally(s.hands, IsFinished)
    && (forall i, j :: 0 <= i < j < |s.freed| ==> s.freed[i].0 != s.freed[j].0)
    && (forall i :: 0 <= i < |s.freed| ==>
          var (id, t) := s.freed[i];
          id < |s.takers| && s.takers[id] == t && t in s.hands && (s.hands[t] != Idle ==> s.hands[t].id != id))
  }

  ghost predicate Inv(s: Pipe) {
    && TR.Inv(s.ring) && CaptureOrder(s) && PacketsComplete(s) && HandsMatch(s) && SettledMatch(s)
    && StreamMatches(s) && FreedMatch(s)
  }

  lemma InitialInv(s: Pipe)
    requires Initial(s)
    ensures Inv(s)
  {
    TR.InitialInv(s.ring);
    TR.TallyZero(s.hands, IsHolding);
    TR.TallyZero(s.hands, IsFinished);
  }

  // ----- every step keeps it -----

  lemma RingIsSized(r: TR.Ring<nat>)
    requires TR.Inv(r)
    ensures TR.Sized(r)
  {}

  /** What a step inside the task ring does to its producers. */
  lemma PushFacts(r: TR.Ring<nat>, a: TR.Action<nat>)
    requires TR.Inv(r) && TR.Enabled(r, a)
    ensures TR.Sized(r)
    ensures var q := TR.Do(r, a);
            if TR.IsPushStep(a) then
              && a.t in r.pushers && q.pushers.Keys == r.pushers.Keys
              && (forall t :: t in r.pushers && t != a.t ==> q.pushers[t] == r.pushers[t])
              && (a.CallPush? ==> q.pushers[a.t] == TR.PushWaits(a.v) && r.pushers[a.t].NoPush?)
              && (a.MoveProducer? ==> CaptureWaits(r.pushers[a.t]) && !CaptureWaits(q.pushers[a.t]))
              && (!a.CallPush? && !a.MoveProducer? ==> CaptureWaits(q.pushers[a.t]) == CaptureWaits(r.pushers[a.t]))
              && (CaptureWaits(r.pushers[a.t]) && CaptureWaits(q.pushers[a.t]) ==>
                    q.pushers[a.t].v == r.pushers[a.t].v)
              && q.written == r.written + if a.MoveProducer? then [r.pushers[a.t].v] else []
            else q.pushers == r.pushers && q.written == r.written
  {}

  /** And to its consumers. */
  lemma PopFacts(r: TR.Ring<nat>, a: TR.Action<nat>)
    requires TR.Inv(r) && TR.Enabled(r, a)
    ensures TR.Sized(r)
    ensures var q := TR.Do(r, a);
            if TR.IsPushStep(a) then q.poppers == r.poppers && q.taken == r.taken
            else
              && a.t in r.poppers && q.poppers.Keys == r.poppers.Keys
              && (forall t :: t in r.poppers && t != a.t ==> q.poppers[t] == r.poppers[t])
              && (a.CallPop? ==> !q.poppers[a.t].NoPop? && !TR.PopAfter(q.poppers[a.t]))
              && (a.MoveConsumer? ==> TR.PopAfter(q.poppers[a.t]) && r.poppers[a.t].PopRead?
                                      && |r.taken| < |r.written| && r.poppers[a.t].v == r.written[|r.taken|])
              && (!a.CallPop? && !a.MoveConsumer? ==>
                    && TR.PopAfter(r.poppers[a.t]) == (TR.PopAfter(q.poppers[a.t]) || q.poppers[a.t].NoPop?)
                    && !r.poppers[a.t].NoPop?)
              && q.taken == r.taken + if a.MoveConsumer? then [r.poppers[a.t].v] else []
  {}

  lemma CaptureOrderKept(s: Pipe, a: Action)
    requires Inv(s) && Enabled(s, a)
    ensures TR.Sized(s.ring)
    ensures CaptureOrder(Do(s, a)) && PacketsComplete(Do(s, a))
  {
    hide SettledMatch, FreedMatch, StreamMatches, HandsMatch, Complete;
    match a
    case Capture(_) => {
      PushFacts(s.ring, TR.CallPush(s.capturer, |s.captured|));
      hide TR.Inv, TR.Do, TR.Enabled;
    }
    case InRing(b) => {
      PushFacts(s.ring, b);
      hide TR.Inv, TR.Do, TR.Enabled;
    }
    case _ =>
  }

  /** The packet a worker takes carries the next number. */
  lemma TakenIsNext(s: Pipe, b: TR.Action<nat>)
    requires Inv(s) && TR.Enabled(s.ring, b) && b.MoveConsumer?
    ensures b.t in s.ring.poppers && s.ring.poppers[b.t].PopRead? && b.t in s.hands && s.hands[b.t] == Idle
    ensures s.ring.poppers[b.t].v == |s.takers| == |s.ring.taken| && |s.takers| < |s.captured|
  {
    hide SettledMatch, FreedMatch, StreamMatches;
    PopFacts(s.ring, b);
    assert HandFits(s.hands[b.t], s.ring.poppers[b.t], s.takers, b.t);
  }

  lemma HandsKeptByCapture(s: Pipe, p: Packet)
    requires Inv(s) && Enabled(s, Capture(p))
    ensures TR.Sized(s.ring) && HandsMatch(Do(s, Capture(p)))
  {
    PopFacts(s.ring, TR.CallPush(s.capturer, |s.captured|));
    hide TR.Inv, TR.Do, TR.Enabled, SettledMatch, FreedMatch, StreamMatches, CaptureOrder, HandFits;
  }

  lemma HandsAfterTake(s: Pipe, r: Pipe, t: TR.Tid)
    requires HandsMatch(s) && t in s.hands
    requires r == s.(ring := r.ring, hands := s.hands[t := Holding(|s.takers|)], takers := s.takers + [t])
    requires r.ring.poppers.Keys == s.ring.poppers.Keys && |r.ring.taken| == |s.ring.taken| + 1
    requires TR.PopAfter(r.ring.poppers[t])
    requires forall u :: u in s.ring.poppers && u != t ==> r.ring.poppers[u] == s.ring.poppers[u]
    ensures HandsMatch(r)
  {
    hide HandFits;
    forall u | u in r.hands ensures HandFits(r.hands[u], r.ring.poppers[u], r.takers, u) {
      OneHandKept(s, r, t, u);
    }
  }

  lemma HandsKeptByTake(s: Pipe, b: TR.Action<nat>)
    requires Inv(s) && Enabled(s, InRing(b)) && b.MoveConsumer?
    ensures TR.Sized(s.ring) && HandsMatch(Do(s, InRing(b)))
  {
    PopFacts(s.ring, b);
    TakenIsNext(s, b);
    hide TR.Inv, TR.Do, TR.Enabled, SettledMatch, FreedMatch, StreamMatches, CaptureOrder, HandFits;
    HandsAfterTake(s, Do(s, InRing(b)), b.t);
  }

  lemma OneHandKept(s: Pipe, r: Pipe, taker: TR.Tid, t: TR.Tid)
    requires t in s.hands && t in s.ring.poppers && t in r.hands && t in r.ring.poppers
    requires HandFits(s.hands[t], s.ring.poppers[t], s.takers, t)
    requires r.takers == s.takers + [taker]
    requires if t == taker then TR.PopAfter(r.ring.poppers[t]) && r.hands[t] == Holding(|s.takers|)
             else r.hands[t] == s.hands[t] && r.ring.poppers[t] == s.ring.poppers[t]
    ensures HandFits(r.hands[t], r.ring.poppers[t], r.takers, t)
  {}

  lemma HandsKeptInRing(s: Pipe, b: TR.Action<nat>)
    requires Inv(s) && Enabled(s, InRing(b)) && !b.MoveConsumer?
    ensures TR.Sized(s.ring) && HandsMatch(Do(s, InRing(b)))
  {
    PopFacts(s.ring, b);
    hide TR.Inv, TR.Do, TR.Enabled, SettledMatch, FreedMatch, StreamMatches, CaptureOrder;
    var r := Do(s, InRing(b));
    if !TR.IsPushStep(b) { assert HandFits(r.hands[b.t], r.ring.poppers[b.t], r.takers, b.t); }
    hide HandFits;
  }

  lemma HandsKeptByWorker(s: Pipe, t: TR.Tid, h: Hand)
    requires HandsMatch(s) && t in s.hands
    requires h == Idle || (s.hands[t] != Idle && h == Finished(s.hands[t].id))
    requires s.ring.poppers[t].NoPop?
    ensures HandsMatch(s.(hands := s.hands[t := h]))
  {
    assert HandFits(s.hands[t], s.ring.poppers[t], s.takers, t);
    assert HandFits(h, s.ring.poppers[t], s.takers, t);
    hide HandFits;
  }

  lemma FinishedIsBetweenPops(s: Pipe, t: TR.Tid)
    requires HandsMatch(s) && t in s.hands && s.hands[t].Finished?
    ensures s.ring.poppers[t].NoPop?
  {
    assert HandFits(s.hands[t], s.ring.poppers[t], s.takers, t);
  }

  lemma HandsKept(s: Pipe, a: Action)
    requires Inv(s) && Enabled(s, a)
    ensures TR.Sized(s.ring) && HandsMatch(Do(s, a))
  {
    hide SettledMatch, FreedMatch, StreamMatches, CaptureOrder, HandFits, TR.Inv;
    RingIsSized(s.ring);
    match a
    case Capture(p) => HandsKeptByCapture(s, p);
    case InRing(b) => if b.MoveConsumer? { HandsKeptByTake(s, b); } else { HandsKeptInRing(s, b); }
    case Settle(t) => HandsKeptByWorker(s, t, Finished(s.hands[t].id));
    case Free(t) => {
      FinishedIsBetweenPops(s, t);
      HandsKeptByWorker(s, t, Idle);
    }
    case Deliver =>
  }

  lemma SettledKeptByTake(s: Pipe, r: Pipe, t: TR.Tid)
    requires SettledMatch(s) && t in s.hands && s.hands[t] == Idle
    requires r == s.(ring := r.ring, hands := s.hands[t := Holding(|s.takers|)], takers := s.takers + [t])
    ensures SettledMatch(r)
  {
    TR.TallyStep(s.hands, t, r.hands[t], IsHolding);
    forall e | e in r.settled ensures EntryFits(r, e) { assert EntryFits(s, e); }
  }

  lemma FreedKeptByTake(s: Pipe, r: Pipe, t: TR.Tid)
    requires FreedMatch(s) && t in s.hands && s.hands[t] == Idle
    requires r == s.(ring := r.ring, hands := s.hands[t := Holding(|s.takers|)], takers := s.takers + [t])
    ensures FreedMatch(r)
  {
    TR.TallyStep(s.hands, t, r.hands[t], IsFinished);
  }

  /** A packet still held is not settled yet. */
  lemma HeldIsNotSettled(s: Pipe, t: TR.Tid, e: Entry)
    requires Inv(s) && t in s.hands && s.hands[t].Holding? && e in s.settled
    ensures e.id != s.hands[t].id && (e.worker == t ==> e.id < s.hands[t].id)
  {
    hide TR.Inv, FreedMatch, StreamMatches, CaptureOrder;
    assert EntryFits(s, e) && HandFits(s.hands[t], s.ring.poppers[t], s.takers, t);
  }

  lemma OrderKeptBySettle(s: Pipe, t: TR.Tid, e: Entry)
    requires Inv(s) && t in s.hands && s.hands[t].Holding? && e.worker == t && e.id == s.hands[t].id
    ensures PerWorkerOrder(s.settled + [e]) && AllDistinct(s.settled + [e])
  {
    assert SettledMatch(s);
    forall i | 0 <= i < |s.settled|
      ensures s.settled[i].id != e.id && (s.settled[i].worker == t ==> s.settled[i].id < e.id)
    {
      HeldIsNotSettled(s, t, s.settled[i]);
    }
    hide Inv, SettledMatch;
  }

  /** The entry made of the packet in hand fits, and the others still do. */
  lemma EntriesFitAfterSettle(s: Pipe, t: TR.Tid, x: Entry)
    requires Inv(s) && Enabled(s, Settle(t)) && TR.Sized(s.ring)
    requires x in Do(s, Settle(t)).settled
    ensures EntryFits(Do(s, Settle(t)), x)
  {
    hide TR.Inv, FreedMatch, StreamMatches, CaptureOrder, PerWorkerOrder, AllDistinct, Complete, Decoded, Accepted;
    assert HandFits(s.hands[t], s.ring.poppers[t], s.takers, t);
    if x in s.settled { assert EntryFits(s, x); }
  }

  lemma SettledKeptBySettle(s: Pipe, t: TR.Tid)
    requires Inv(s) && Enabled(s, Settle(t))
    ensures TR.Sized(s.ring) && SettledMatch(Do(s, Settle(t)))
  {
    RingIsSized(s.ring);
    var r := Do(s, Settle(t));
    OrderKeptBySettle(s, t, r.settled[|s.settled|]);
    TR.TallyStep(s.hands, t, r.hands[t], IsHolding);
    forall x | x in r.settled ensures EntryFits(r, x) { EntriesFitAfterSettle(s, t, x); }
    assert SettledMatch(s);
    hide Inv, EntryFits, PerWorkerOrder, AllDistinct, Complete, Decoded, Accepted, Judge;
  }

  lemma FreedKeptBySettle(s: Pipe, t: TR.Tid)
    requires Inv(s) && Enabled(s, Settle(t))
    ensures TR.Sized(s.ring) && FreedMatch(Do(s, Settle(t)))
  {
    hide TR.Inv, SettledMatch, StreamMatches, CaptureOrder, Complete, Decoded, Accepted;
    RingIsSized(s.ring);
    TR.TallyStep(s.hands, t, Do(s, Settle(t)).hands[t], IsFinished);
  }

  lemma StreamKeptBySettle(s: Pipe, t: TR.Tid)
    requires Inv(s) && Enabled(s, Settle(t))
    ensures TR.Sized(s.ring) && StreamMatches(Do(s, Settle(t)))
  {
    hide TR.Inv, SettledMatch, FreedMatch, CaptureOrder, HandsMatch;
    RingIsSized(s.ring);
    var r := Do(s, Settle(t));
    WithAppends(Sent, s.settled, r.settled[|s.settled|]);
  }

  lemma KeptByFree(s: Pipe, t: TR.Tid)
    requires Inv(s) && Enabled(s, Free(t))
    ensures TR.Sized(s.ring) && SettledMatch(Do(s, Free(t))) && FreedMatch(Do(s, Free(t)))
  {
    hide TR.Inv, StreamMatches, CaptureOrder;
    RingIsSized(s.ring);
    var r := Do(s, Free(t));
    TR.TallyStep(s.hands, t, Idle, IsHolding);
    TR.TallyStep(s.hands, t, Idle, IsFinished);
    assert HandFits(s.hands[t], s.ring.poppers[t], s.takers, t);
    forall e | e in r.settled ensures EntryFits(r, e) { assert EntryFits(s, e); }
  }

  lemma KeptByCapture(s: Pipe, p: Packet)
    requires Inv(s) && Enabled(s, Capture(p))
    ensures TR.Sized(s.ring)
    ensures var r := Do(s, Capture(p)); SettledMatch(r) && FreedMatch(r) && StreamMatches(r)
  {
    hide TR.Inv, TR.Do, TR.Enabled, CaptureOrder, HandsMatch;
    RingIsSized(s.ring);
    var r := Do(s, Capture(p));
    forall e | e in r.settled ensures EntryFits(r, e) { assert EntryFits(s, e); }
  }

  lemma KeptByTake(s: Pipe, b: TR.Action<nat>)
    requires Inv(s) && Enabled(s, InRing(b)) && b.MoveConsumer?
    ensures TR.Sized(s.ring)
    ensures var r := Do(s, InRing(b)); SettledMatch(r) && FreedMatch(r) && StreamMatches(r)
  {
    RingIsSized(s.ring);
    TakenIsNext(s, b);
    hide TR.Inv, TR.Do, TR.Enabled, CaptureOrder, HandsMatch, SettledMatch, FreedMatch;
    SettledKeptByTake(s, Do(s, InRing(b)), b.t);
    FreedKeptByTake(s, Do(s, InRing(b)), b.t);
  }

  lemma KeptInRing(s: Pipe, b: TR.Action<nat>)
    requires Inv(s) && Enabled(s, InRing(b)) && !b.MoveConsumer?
    ensures TR.Sized(s.ring)
    ensures var r := Do(s, InRing(b)); SettledMatch(r) && FreedMatch(r) && StreamMatches(r)
  {
    hide TR.Inv, TR.Do, TR.Enabled, CaptureOrder, HandsMatch;
    RingIsSized(s.ring);
    var r := Do(s, InRing(b));
    forall e | e in r.settled ensures EntryFits(r, e) { assert EntryFits(s, e); }
  }

  lemma KeptByDeliver(s: Pipe)
    requires Inv(s) && Enabled(s, Deliver)
    ensures TR.Sized(s.ring)
    ensures var r := Do(s, Deliver); SettledMatch(r) && FreedMatch(r) && StreamMatches(r)
  {
    hide TR.Inv, CaptureOrder, HandsMatch;
    RingIsSized(s.ring);
    var r := Do(s, Deliver);
    assert r.popped + r.out == s.popped + s.out;
    forall e | e in r.settled ensures EntryFits(r, e) { assert EntryFits(s, e); }
  }

  lemma RingKept(s: Pipe, a: Action)
    requires Inv(s) && Enabled(s, a)
    ensures TR.Sized(s.ring) && TR.Inv(Do(s, a).ring)
  {
    hide TR.Inv, TR.Do, TR.Enabled, CaptureOrder, HandsMatch, SettledMatch, FreedMatch, StreamMatches;
    RingIsSized(s.ring);
    match a
    case Capture(_) => TR.StepKeepsInv(s.ring, TR.CallPush(s.capturer, |s.captured|));
    case InRing(b) => TR.StepKeepsInv(s.ring, b);
    case _ =>
  }

  /** Every step of every thread keeps the invariant. */
  lemma StepKeepsInv(s: Pipe, a: Action)
    requires Inv(s) && Enabled(s, a)
    ensures TR.Sized(s.ring) && Inv(Do(s, a))
  {
    RingKept(s, a);
    CaptureOrderKept(s, a);
    HandsKept(s, a);
    RestKept(s, a);
    hide TR.Inv, CaptureOrder, PacketsComplete, HandsMatch, SettledMatch, FreedMatch, StreamMatches, Do, Enabled;
  }

  lemma RestKept(s: Pipe, a: Action)
    requires Inv(s) && Enabled(s, a)
    ensures TR.Sized(s.ring)
    ensures var r := Do(s, a); SettledMatch(r) && FreedMatch(r) && StreamMatches(r)
  {
    RingIsSized(s.ring);
    hide TR.Inv, CaptureOrder, HandsMatch, SettledMatch, FreedMatch;
    match a
    case Capture(p) => KeptByCapture(s, p);
    case InRing(b) => if b.MoveConsumer? { KeptByTake(s, b); } else { KeptInRing(s, b); }
    case Settle(t) => {
      SettledKeptBySettle(s, t);
      FreedKeptBySettle(s, t);
      StreamKeptBySettle(s, t);
    }
    case Free(t) => KeptByFree(s, t);
    case Deliver => KeptByDeliver(s);
  }

  // ----- whole runs -----

  /** Some interleaving of all threads' steps leads from the start to `s`. */
  ghost predicate Reached(start: Pipe, acts: seq<Action>, s: Pipe)
    decreases |acts|
  {
    if acts == [] then s == start
    else TR.Sized(start.ring) && Enabled(start, acts[0]) && Reached(Do(start, acts[0]), acts[1..], s)
  }

  lemma {:induction false} RunKeepsInv(start: Pipe, acts: seq<Action>, s: Pipe)
    requires Inv(start) && Reached(start, acts, s)
    ensures Inv(s)
    decreases |acts|
  {
    hide Inv, Do, Enabled;
    if acts != [] {
      StepKeepsInv(start, acts[0]);
      RunKeepsInv(Do(start, acts[0]), acts[1..], s);
    }
  }

  lemma ReachedInv(start: Pipe, acts: seq<Action>, s: Pipe)
    requires Initial(start) && Reached(start, acts, s)
    ensures Inv(s)
  {
    InitialInv(start);
    RunKeepsInv(start, acts, s);
  }

  /** Every captured packet is waiting in the capture thread, in the task ring, held by a worker,
      rejected, dropped at a full output ring, in the output ring, or popped: the counts add up in
      every reachable state, whatever the number of workers. */
  lemma Conservation(start: Pipe, acts: seq<Action>, s: Pipe)
    requires Initial(start) && Reached(start, acts, s)
    ensures s.capturer in s.ring.pushers && |s.ring.taken| <= |s.ring.written|
    ensures |s.captured| == (if CaptureWaits(s.ring.pushers[s.capturer]) then 1 else 0)
                            + (|s.ring.written| - |s.ring.taken|)
                            + TR.Tally(s.hands, IsHolding)
                            + |With(Rejected, s.settled)| + |With(Dropped, s.settled)|
                            + |s.out| + |s.popped|
  {
    ReachedInv(start, acts, s);
    FatesAddUp(s.settled);
    assert |s.popped + s.out| == |With(Sent, s.settled)|;
  }

  /** No packet is counted twice: settled packets are distinct and none of them is still held, in
      the task ring or on its way there; and packets held by two workers differ. */
  lemma OnePlaceEach(start: Pipe, acts: seq<Action>, s: Pipe, e: Entry, t: TR.Tid, u: TR.Tid)
    requires Initial(start) && Reached(start, acts, s)
    ensures AllDistinct(s.settled)
    ensures e in s.settled ==> e.id < |s.ring.taken|
    ensures t in s.hands && s.hands[t].Holding? ==>
              && s.hands[t].id < |s.ring.taken|
              && (e in s.settled ==> e.id != s.hands[t].id)
              && (u in s.hands && u != t && s.hands[u].Holding? ==> s.hands[u].id != s.hands[t].id)
    ensures forall i :: 0 <= i < |s.ring.written| ==> s.ring.written[i] == i
  {
    ReachedInv(start, acts, s);
    if e in s.settled { assert EntryFits(s, e); }
    if t in s.hands && s.hands[t].Holding? {
      assert HandFits(s.hands[t], s.ring.poppers[t], s.takers, t);
      if e in s.settled { HeldIsNotSettled(s, t, e); }
      if u in s.hands && s.hands[u].Holding? { assert HandFits(s.hands[u], s.ring.poppers[u], s.takers, u); }
    }
  }

  /** A captured packet is freed at most once, by the worker that took it and after its fate was
      settled; and every settled packet is freed unless its worker is just about to. */
  lemma FreedOnceByItsTaker(start: Pipe, acts: seq<Action>, s: Pipe)
    requires Initial(start) && Reached(start, acts, s)
    ensures forall i, j :: 0 <= i < j < |s.freed| ==> s.freed[i].0 != s.freed[j].0
    ensures forall i :: 0 <= i < |s.freed| ==>
              s.freed[i].0 < |s.takers| && s.takers[s.freed[i].0] == s.freed[i].1
    ensures forall i, t :: 0 <= i < |s.freed| && t in s.hands && s.hands[t] != Idle ==>
              s.hands[t].id != s.freed[i].0
    ensures |s.settled| == |s.freed| + TR.Tally(s.hands, IsFinished)
  {
    ReachedInv(start, acts, s);
    forall i, t | 0 <= i < |s.freed| && t in s.hands && s.hands[t] != Idle ensures s.hands[t].id != s.freed[i].0 {
      assert HandFits(s.hands[t], s.ring.poppers[t], s.takers, t);
    }
  }

  /** What reaches the output is accepted, decoded, no packet twice, and, worker by worker, in
      capture order, for every pattern of drops. */
  lemma DeliveredInWorkerOrder(start: Pipe, acts: seq<Action>, s: Pipe)
    requires Initial(start) && Reached(start, acts, s)
    ensures PerWorkerOrder(s.popped) && AllDistinct(s.popped)
    ensures forall e :: e in s.popped ==>
              && e.id < |s.captured| && Complete(s.captured[e.id].src)
              && Accepted(s.captured[e.id], s.useNull) && e.packet == Decoded(s.captured[e.id])
              && e.id < |s.takers| && s.takers[e.id] == e.worker && e.worker in s.hands
  {
    ReachedInv(start, acts, s);
    var sent := With(Sent, s.settled);
    WithKeepsOrder(Sent, s.settled);
    WithIsPart(Sent, s.settled);
    assert s.popped == sent[..|s.popped|];
    hide TR.Inv, HandsMatch, CaptureOrder, FreedMatch, With;
    forall e | e in s.popped
      ensures e.id < |s.captured| && Complete(s.captured[e.id].src)
      ensures Accepted(s.captured[e.id], s.useNull) && e.packet == Decoded(s.captured[e.id])
      ensures e.id < |s.takers| && s.takers[e.id] == e.worker && e.worker in s.hands
    {
      assert e in sent && EntryFits(s, e);
    }
  }

  /** What is rejected, and what is in the output ring or beyond it, by the bytes of the frame: only
      IPv4 gets through, TCP and UDP with a payload always, the rest when empty packets are wanted. */
  lemma JudgedByBytes(start: Pipe, acts: seq<Action>, s: Pipe, e: Entry)
    requires Initial(start) && Reached(start, acts, s)
    ensures e in s.settled ==>
              && e.id < |s.captured|
              && var b := s.captured[e.id].src;
                 e.verdict != Rejected <==> PB.IsIpv4(b) && (s.useNull || PB.CarriesPayload(b))
    ensures e in s.popped || e in s.out ==>
              && e.id < |s.captured|
              && var b := s.captured[e.id].src; PB.IsIpv4(b) && (s.useNull || PB.CarriesPayload(b))
  {
    ReachedInv(start, acts, s);
    hide TR.Inv, HandsMatch, CaptureOrder, FreedMatch, With, PB.IsIpv4, PB.CarriesPayload, Accepted, Decoded;
    WithIsPart(Sent, s.settled);
    if e in s.popped || e in s.out { assert e in s.popped + s.out; }
    if e in s.settled {
      assert EntryFits(s, e);
      PB.AcceptedIff(s.captured[e.id], s.useNull);
    }
  }

  /** Strictly rising numbers below their count are all the numbers below it. */
  lemma {:induction false} RisingIsCounting(es: seq<Entry>, n: nat)
    requires n == |es| && forall i, j :: 0 <= i < j < n ==> es[i].id < es[j].id
    requires forall i :: 0 <= i < n ==> es[i].id < n
    ensures forall i :: 0 <= i < n ==> es[i].id == i
  {
    if n > 0 {
      AtLeastIndex(es, n - 1);
      RisingIsCounting(es[..n - 1], n - 1);
    }
  }

  lemma {:induction false} AtLeastIndex(es: seq<Entry>, k: nat)
    requires k < |es| && forall i, j :: 0 <= i < j < |es| ==> es[i].id < es[j].id
    ensures es[k].id >= k
  {
    if k > 0 { AtLeastIndex(es, k - 1); }
  }

  /** With one worker the fates are settled in capture order without a gap, and what is delivered
      is a subsequence of the accepted packets in capture order. */
  lemma OneWorkerKeepsCaptureOrder(start: Pipe, acts: seq<Action>, s: Pipe, w: TR.Tid)
    requires Initial(start) && Reached(start, acts, s) && s.hands.Keys == {w}
    ensures forall i :: 0 <= i < |s.settled| ==> s.settled[i].id == i
    ensures s.popped + s.out == With(Sent, s.settled)
    ensures forall i, j :: 0 <= i < j < |s.popped| ==> s.popped[i].id < s.popped[j].id
  {
    ReachedInv(start, acts, s);
    assert StreamMatches(s);
    DeliveredInWorkerOrder(start, acts, s);
    hide Inv, Initial, Reached, With, Complete, Accepted, Decoded;
    OneWorkerNumbers(s, w);
    RisingIsCounting(s.settled, |s.settled|);
    forall e | e in s.popped ensures e.worker == w { assert e.worker in s.hands; }
    OnePartIsRising(s.popped, w);
  }

  lemma OnePartIsRising(es: seq<Entry>, w: TR.Tid)
    requires PerWorkerOrder(es) && forall e :: e in es ==> e.worker == w
    ensures forall i, j :: 0 <= i < j < |es| ==> es[i].id < es[j].id
  {
    forall i, j | 0 <= i < j < |es| ensures es[i].id < es[j].id {
      assert es[i] in es && es[j] in es;
    }
  }

  lemma OneWorkerNumbers(s: Pipe, w: TR.Tid)
    requires Inv(s) && s.hands.Keys == {w}
    ensures forall i, j :: 0 <= i < j < |s.settled| ==> s.settled[i].id < s.settled[j].id
    ensures forall i :: 0 <= i < |s.settled| ==> s.settled[i].id < |s.settled|
  {
    hide TR.Inv, FreedMatch, StreamMatches, CaptureOrder;
    forall i | 0 <= i < |s.settled| ensures s.settled[i].worker == w && EntryFits(s, s.settled[i]) {
      assert s.settled[i] in s.settled;
    }
    assert HandFits(s.hands[w], s.ring.poppers[w], s.takers, w);
    var holders := TR.Members(s.hands, IsHolding);
    assert holders == if s.hands[w].Holding? then {w} else {};
  }

  // ----- progress -----

  /** The capture thread inside its push, or a worker, can take a step. */
  ghost predicate Moves(s: Pipe) {
    exists a :: Enabled(s, a) && !a.Capture? && !a.Deliver?
  }

  lemma BusyHandMoves(s: Pipe, t: TR.Tid)
    requires Inv(s) && t in s.hands && s.hands[t] != Idle
    ensures Moves(s)
  {
    hide SettledMatch, FreedMatch, StreamMatches, CaptureOrder, TR.Inv;
    assert HandFits(s.hands[t], s.ring.poppers[t], s.takers, t);
    var pc := s.ring.poppers[t];
    if s.hands[t].Finished? {
      assert Enabled(s, Free(t));
    } else if pc.NoPop? {
      HeldIsCaptured(s, t);
      assert Enabled(s, Settle(t));
    } else if pc.PopMoved? {
      assert Enabled(s, InRing(TR.UnlockConsumer(t)));
    } else {
      assert Enabled(s, InRing(TR.PostProducer(t)));
    }
  }

  lemma HeldIsCaptured(s: Pipe, t: TR.Tid)
    requires Inv(s) && t in s.hands && s.hands[t].Holding?
    ensures s.hands[t].id < |s.captured| && Complete(s.captured[s.hands[t].id].src)
  {
    hide SettledMatch, FreedMatch, StreamMatches;
    assert HandFits(s.hands[t], s.ring.poppers[t], s.takers, t);
    TR.TokenBounds(s.ring);
  }

  lemma ReadyPopperMoves(s: Pipe, t: TR.Tid)
    requires t in s.hands && s.hands[t] == Idle && TR.PopReady(s.ring, t)
    ensures Moves(s)
  {
    var b: TR.Action<nat> := match s.ring.poppers[t]
      case NoPop => TR.CallPop(t)
      case PopWaits => TR.WaitConsumer(t)
      case PopHasToken => TR.LockConsumer(t)
      case PopLocked => TR.ReadSlot(t)
      case PopRead(_) => TR.MoveConsumer(t)
      case PopMoved(_) => TR.UnlockConsumer(t)
      case PopPosts(_) => TR.PostProducer(t);
    assert Enabled(s, InRing(b));
  }

  lemma ReadyPusherMoves(s: Pipe, t: TR.Tid, v: nat)
    requires TR.PushReady(s.ring, t, v) && t in s.ring.pushers && !s.ring.pushers[t].NoPush?
    ensures Moves(s)
  {
    var b: TR.Action<nat> := match s.ring.pushers[t]
      case PushWaits(_) => TR.WaitProducer(t)
      case PushHasToken(_) => TR.LockProducer(t)
      case PushLocked(_) => TR.WriteSlot(t)
      case PushWrote(_) => TR.MoveProducer(t)
      case PushMoved(_) => TR.UnlockProducer(t)
      case _ => TR.PostConsumer(t);
    assert Enabled(s, InRing(b));
  }

  /** When all workers wait and the capture thread waits or rests, either the ring has a token
      for one of them or nothing is under way. */
  lemma WaitersHaveTokens(r: TR.Ring<nat>, c: TR.Tid)
    requires TR.Inv(r) && r.pushers.Keys == {c}
    requires r.pushers[c].NoPush? || r.pushers[c].PushWaits?
    requires forall t :: t in r.poppers ==> r.poppers[t].PopWaits?
    ensures r.semConsumer == |r.written| - |r.taken| && r.semConsumer + r.semProducer == |r.cache| > 0
  {
    TR.TallyZero(r.pushers, TR.PushBefore);
    TR.TallyZero(r.pushers, TR.PushAfter);
    TR.TallyZero(r.poppers, TR.PopBefore);
    TR.TallyZero(r.poppers, TR.PopAfter);
  }

  /** With idle workers, the task ring or its threads bring the next packet on. */
  lemma IdleWorkersMove(s: Pipe, w: TR.Tid)
    requires Inv(s) && w in s.hands && |s.ring.taken| < |s.captured|
    requires forall t :: t in s.hands ==> s.hands[t] == Idle
    ensures Moves(s)
  {
    hide SettledMatch, FreedMatch, StreamMatches, TR.Inv;
    TR.HolderIsReady(s.ring, 0);
    if !Moves(s) {
      forall t | t in s.hands ensures !TR.PopReady(s.ring, t) {
        if TR.PopReady(s.ring, t) { ReadyPopperMoves(s, t); }
      }
      var c := s.capturer;
      if TR.PushReady(s.ring, c, 0) && !s.ring.pushers[c].NoPush? { ReadyPusherMoves(s, c, 0); }
      NobodyMoves(s.ring, c);
      WaitersHaveTokens(s.ring, c);
      TR.ReadyUnlessWaiting(s.ring, w, 0);
      TR.ReadyUnlessWaiting(s.ring, c, 0);
    }
  }

  lemma NobodyMoves(r: TR.Ring<nat>, c: TR.Tid)
    requires TR.Inv(r) && r.pushers.Keys == {c}
    requires forall t :: t in r.poppers ==> !TR.PopReady(r, t)
    requires TR.PushReady(r, c, 0) ==> r.pushers[c].NoPush?
    ensures forall t :: t in r.poppers ==> r.poppers[t].PopWaits?
    ensures r.pushers[c].NoPush? || r.pushers[c].PushWaits?
  {
    TR.HolderIsReady(r, 0);
    HoldersAreThreads(r);
    hide TR.PushReady, TR.PopReady, TR.Inv;
    forall t | t in r.poppers ensures r.poppers[t].PopWaits? { TR.ReadyUnlessWaiting(r, t, 0); }
    TR.ReadyUnlessWaiting(r, c, 0);
  }

  lemma HoldersAreThreads(r: TR.Ring<nat>)
    requires TR.Inv(r)
    ensures r.mutexProducer.Some? ==>
              r.mutexProducer.value in r.pushers && TR.PushHolds(r.pushers[r.mutexProducer.value])
    ensures r.mutexConsumer.Some? ==> r.mutexConsumer.value in r.poppers
  {}

  /** No packet gets stuck: with a worker about, as long as some captured packet has not been
      freed, the capture thread inside its push or a worker has a step to take, whether or not the
      output thread ever pops. */
  lemma NothingGetsStuck(start: Pipe, acts: seq<Action>, s: Pipe, w: TR.Tid)
    requires Initial(start) && Reached(start, acts, s) && w in s.hands && |s.freed| < |s.captured|
    ensures Moves(s)
  {
    ReachedInv(start, acts, s);
    if t :| t in s.hands && s.hands[t] != Idle {
      BusyHandMoves(s, t);
    } else {
      TR.TallyZero(s.hands, IsHolding);
      TR.TallyZero(s.hands, IsFinished);
      assert |s.takers| == |s.freed| && |s.takers| == |s.ring.taken|;
      IdleWorkersMove(s, w);
    }
  }
}

/** Closing the log: what it costs, that it ends, and when a logger is left to use the queue or the
    stream after they are gone. */
module AsyncClose {
  import opened Base
  import TR = TaskRing
  import opened AsyncLog

  // ----- the join -----

  /** How many steps the flusher still takes once the flag is cleared. */
  function FlusherSteps(f: Flusher): nat {
    match f
    case Popping => 3
    case InHand(_) => 2
    case AtIf => 2
    case AtLoop => 1
    case Exited => 0
  }

  /** The step that brings a waiting join nearer its end: the flusher's, unless it has a line to
      write and a logger holds the mutex, which then has its own write to do. */
  function NextForJoin(s: Log): Action {
    match s.flusher
    case AtLoop => LoopTest
    case AtIf => InnerTest
    case Popping => PopLine
    case InHand(_) => if s.mutex.Some? then WriteLine(s.mutex.value) else WriteQueued
    case Exited => Action.Join
  }

  lemma JoiningMoves(s: Log)
    requires Inv(s) && s.closer.Joining? && s.fault.NoFault?
    ensures Enabled(s, NextForJoin(s)) && Do(s, NextForJoin(s)).fault.NoFault?
    ensures NextForJoin(s).WriteLine? ==> Do(s, NextForJoin(s)).mutex == None
  {
    hide QueueOrder, Queued;
  }

  lemma FlusherNearsItsEnd(s: Log, a: Action)
    requires Inv(s) && s.closer.Joining? && Enabled(s, a)
    ensures if IsFlusherStep(a) then FlusherSteps(Do(s, a).flusher) < FlusherSteps(s.flusher)
            else Do(s, a).flusher == s.flusher
  {
    hide QueueOrder, Queued;
  }

  /** The join returns: while it waits the flusher has a step to take, even if the wake-up found the
      queue full, or waits for a logger that holds the mutex and has its write to do; every step of
      the flusher brings it nearer its end, and no other step takes it back. */
  lemma JoinReturns(start: Log, acts: seq<Action>, s: Log, a: Action)
    requires Initial(start) && Reached(start, acts, s) && s.closer.Joining? && s.fault.NoFault?
    ensures Enabled(s, NextForJoin(s))
    ensures NextForJoin(s).WriteLine? ==> Do(s, NextForJoin(s)).mutex == None
    ensures Enabled(s, a) && IsFlusherStep(a) ==> FlusherSteps(Do(s, a).flusher) < FlusherSteps(s.flusher)
    ensures Enabled(s, a) && !IsFlusherStep(a) ==> Do(s, a).flusher == s.flusher
  {
    InitialInv(start);
    RunKeepsInv(start, acts, s);
    hide Inv, Initial, Reached;
    JoiningMoves(s);
    if Enabled(s, a) { FlusherNearsItsEnd(s, a); }
  }

  // ----- what closing loses -----

  /** The flusher writes at most one more queued line after the flag is cleared, and exactly the
      lines pushed but not written by then are lost with the queue. */
  lemma CloseLosesTheRest(start: Log, acts: seq<Action>, s: Log)
    requires Initial(start) && Reached(start, acts, s)
    ensures !s.isAsync ==> |Queued(s.file)| <= s.mark + 1
    ensures Enabled(s, DeleteQueue) ==>
              && s.flusher.Exited? && Queued(s.file) <= s.pushed
              && Do(s, DeleteQueue).lost == s.lost + s.pushed[|Queued(s.file)|..]
  {
    InitialInv(start);
    RunKeepsInv(start, acts, s);
    hide Queued;
  }

  lemma {:induction false} MarkStays(s: Log, acts: seq<Action>, r: Log)
    requires Inv(s) && !s.isAsync && !s.closer.Open? && Reached(s, acts, r)
    ensures !r.isAsync && r.mark == s.mark && Inv(r)
    decreases |acts|
  {
    if acts != [] {
      StepKeepsInv(s, acts[0]);
      FlagStaysClear(s, acts[0]);
      hide Inv, Do, Enabled;
      MarkStays(Do(s, acts[0]), acts[1..], r);
    }
  }

  lemma FlagStaysClear(s: Log, a: Action)
    requires Enabled(s, a) && !s.isAsync && !s.closer.Open?
    ensures var r := Do(s, a); !r.isAsync && !r.closer.Open? && r.mark == s.mark
  {
    hide Queued;
  }

  /** Whatever happens after the flag is cleared, the flusher adds at most one line to those it had
      written then. */
  lemma AtMostOneMore(start: Log, acts: seq<Action>, s: Log, more: seq<Action>, r: Log)
    requires Initial(start) && Reached(start, acts, s) && s.isAsync && Enabled(s, ClearFlag)
    requires Reached(Do(s, ClearFlag), more, r)
    ensures |Queued(r.file)| <= |Queued(s.file)| + 1
  {
    hide Reached, Queued;
    InitialInv(start);
    RunKeepsInv(start, acts, s);
    StepKeepsInv(s, ClearFlag);
    MarkStays(Do(s, ClearFlag), more, r);
  }

  lemma CloseUntilJoined(start: Log, acts: seq<Action>, s: Log) returns (more: seq<Action>, r: Log)
    requires Reached(start, acts, s) && s.fault.NoFault? && s.isAsync && s.flusher.AtLoop? && s.closer.Open?
    ensures Reached(start, more, r) && r.closer.Joined? && r.file == s.file && r.fault.NoFault?
    ensures if |s.queue| < s.cap then r.lost == s.lost && r.queue == s.queue + [Wake]
            else r.lost == s.lost + [Wake] && r.queue == s.queue
  {
    hide Queued, Reached;
    var s1 := Do(s, ClearFlag);
    ReachedThen(start, acts, s, ClearFlag);
    var s2 := Do(s1, PushWake);
    ReachedThen(start, acts + [ClearFlag], s1, PushWake);
    var s3 := Do(s2, LoopTest);
    ReachedThen(start, acts + [ClearFlag] + [PushWake], s2, LoopTest);
    ReachedThen(start, acts + [ClearFlag] + [PushWake] + [LoopTest], s3, Action.Join);
    more, r := acts + [ClearFlag] + [PushWake] + [LoopTest] + [Action.Join], Do(s3, Action.Join);
  }

  /** A flusher caught at its loop test writes nothing more: closing then loses the whole queue. */
  lemma CloseCanLoseTheQueue(start: Log, acts: seq<Action>, s: Log) returns (more: seq<Action>, r: Log)
    requires Initial(start) && Reached(start, acts, s) && s.fault.NoFault?
    requires s.isAsync && s.flusher.AtLoop?
    ensures Reached(start, more, r) && r.closer.Deleted? && r.file == s.file
    ensures r.lost == s.lost + if |s.queue| < s.cap then s.queue + [Wake] else [Wake] + s.queue
  {
    InitialInv(start);
    RunKeepsInv(start, acts, s);
    assert s.closer.Open?;
    hide Inv, Initial, Queued, Reached;
    var acts1, s1 := CloseUntilJoined(start, acts, s);
    ReachedThen(start, acts1, s1, DeleteQueue);
    more, r := acts1 + [DeleteQueue], Do(s1, DeleteQueue);
  }

  // ----- uses after the end -----

  /** Some run from here ends in the fault. */
  ghost predicate CanEndIn(s: Log, f: Fault) {
    exists acts, r :: Reached(s, acts, r) && r.fault == f
  }

  lemma EndsInAfter(s: Log, a: Action, f: Fault)
    requires Enabled(s, a) && CanEndIn(Do(s, a), f)
    ensures CanEndIn(s, f)
  {
    var acts, r :| Reached(Do(s, a), acts, r) && r.fault == f;
    assert ([a] + acts)[1..] == acts;
    assert Reached(s, [a] + acts, r);
  }

  lemma EndsInNow(s: Log, a: Action, f: Fault)
    requires Enabled(s, a) && Do(s, a).fault == f
    ensures CanEndIn(s, f)
  {
    assert Reached(Do(s, a), [], Do(s, a));
    EndsInAfter(s, a, f);
  }

  function CloserSteps(c: Closer): nat {
    match c
    case Open => 7
    case Cleared => 6
    case Joining => 5
    case Joined => 4
    case Deleted => 3
    case Flushed => 2
    case StreamClosed => 1
    case Closed => 0
  }

  function Held(s: Log): nat {
    if s.mutex.Some? then 1 else 0
  }

  /** The close path's next step while the queue is there, with the mutex freed for it. */
  function NextOfClose(s: Log): Action
    requires !QueueGone(s.closer)
  {
    match s.closer
    case Open => ClearFlag
    case Cleared => PushWake
    case Joining => NextForJoin(s)
    case Joined => DeleteQueue
  }

  lemma CloseMoves(s: Log)
    requires Inv(s) && s.fault.NoFault? && !QueueGone(s.closer)
    ensures Enabled(s, NextOfClose(s))
    ensures var r := Do(s, NextOfClose(s));
            && r.fault.NoFault? && r.loggers.Keys == s.loggers.Keys
            && (forall t :: t in s.loggers && !s.loggers[t].Writing? ==> r.loggers[t] == s.loggers[t])
            && (CloserSteps(r.closer) < CloserSteps(s.closer)
                || (r.closer == s.closer
                    && (FlusherSteps(r.flusher) < FlusherSteps(s.flusher)
                        || (r.flusher == s.flusher && Held(r) < Held(s)))))
  {
    if s.closer.Joining? { JoiningMoves(s); }
    hide QueueOrder, Queued;
  }

  // the queue

  /** Nobody is, or can any more get, between the flag test and the push. */
  ghost predicate QueueIsSafe(s: Log) {
    s.fault != DeadQueue && NobodyInQueue(s) && (s.isAsync ==> s.loggers.Keys == {})
  }

  lemma {:induction false} SafeQueueStaysSafe(s: Log, acts: seq<Action>, r: Log)
    requires QueueIsSafe(s) && Reached(s, acts, r)
    ensures r.fault != DeadQueue
    decreases |acts|
  {
    if acts != [] {
      QueueSafetyKept(s, acts[0]);
      hide QueueIsSafe, Do, Enabled;
      SafeQueueStaysSafe(Do(s, acts[0]), acts[1..], r);
    }
  }

  lemma QueueSafetyKept(s: Log, a: Action)
    requires QueueIsSafe(s) && Enabled(s, a)
    ensures QueueIsSafe(Do(s, a))
  {
    hide Queued;
  }

  /** A logger between its flag test and its push when the flag is cleared can find the queue gone. */
  lemma {:induction false} StrandedLoggerFaults(s: Log, t: TR.Tid)
    requires Inv(s) && s.fault.NoFault? && t in s.loggers && UsesQueue(s.loggers[t])
    ensures CanEndIn(s, DeadQueue)
    decreases CloserSteps(s.closer), FlusherSteps(s.flusher), Held(s)
  {
    if QueueGone(s.closer) {
      EndsInNow(s, if s.loggers[t].SawAsync? then TestFull(t) else PushLine(t), DeadQueue);
    } else {
      CloseMoves(s);
      StepKeepsInv(s, NextOfClose(s));
      hide Inv, Do, Enabled, CanEndIn;
      StrandedLoggerFaults(Do(s, NextOfClose(s)), t);
      EndsInAfter(s, NextOfClose(s), DeadQueue);
    }
  }

  /** While the flag is set, any logger can get to its flag test. */
  function NextToTest(s: Log, t: TR.Tid): Action
    requires t in s.loggers && !UsesQueue(s.loggers[t])
  {
    match s.loggers[t]
    case Writing(_) => WriteLine(t)
    case Formatted(_) => TestAsync(t)
    case Away => if s.mutex.Some? then WriteLine(s.mutex.value) else Format(t)
    case WillWrite(_) => if s.mutex.Some? then WriteLine(s.mutex.value) else TestFile(t)
  }

  function StepsToTest(l: Logger): nat {
    match l
    case WillWrite(_) => 4
    case Writing(_) => 3
    case Away => 2
    case Formatted(_) => 1
    case _ => 0
  }

  lemma LoggerMovesToTest(s: Log, t: TR.Tid)
    requires Inv(s) && s.fault.NoFault? && s.isAsync && t in s.loggers && !UsesQueue(s.loggers[t])
    ensures Enabled(s, NextToTest(s, t))
    ensures var r := Do(s, NextToTest(s, t));
            && r.fault.NoFault? && r.isAsync && t in r.loggers
            && (StepsToTest(r.loggers[t]) < StepsToTest(s.loggers[t])
                || (r.loggers[t] == s.loggers[t] && Held(r) < Held(s)))
  {
    hide QueueOrder, Queued;
  }

  lemma {:induction false} LoggerCanBeStranded(s: Log, t: TR.Tid)
    requires Inv(s) && s.fault.NoFault? && s.isAsync && t in s.loggers
    ensures CanEndIn(s, DeadQueue)
    decreases StepsToTest(s.loggers[t]), Held(s)
  {
    if UsesQueue(s.loggers[t]) {
      StrandedLoggerFaults(s, t);
    } else {
      LoggerMovesToTest(s, t);
      StepKeepsInv(s, NextToTest(s, t));
      hide Inv, Do, Enabled, CanEndIn;
      LoggerCanBeStranded(Do(s, NextToTest(s, t)), t);
      EndsInAfter(s, NextToTest(s, t), DeadQueue);
    }
  }

  /** Exactly when a run can go on to use the deleted queue: as long as the flag is set, whenever
      there is a logger at all; once it is cleared, whenever a logger stands between its test of the
      flag and its push. */
  lemma DeadQueueIff(start: Log, acts: seq<Action>, s: Log)
    requires Initial(start) && Reached(start, acts, s) && s.fault.NoFault?
    ensures CanEndIn(s, DeadQueue) <==> if s.isAsync then s.loggers.Keys != {} else !NobodyInQueue(s)
  {
    InitialInv(start);
    RunKeepsInv(start, acts, s);
    hide Inv, Initial, Do, Enabled;
    if s.isAsync && s.loggers.Keys != {} {
      var t :| t in s.loggers;
      LoggerCanBeStranded(s, t);
    } else if !NobodyInQueue(s) {
      var t :| t in s.loggers && UsesQueue(s.loggers[t]);
      StrandedLoggerFaults(s, t);
    } else {
      forall more, r | Reached(s, more, r) ensures r.fault != DeadQueue { SafeQueueStaysSafe(s, more, r); }
    }
  }

  // the stream

  ghost predicate AllInQueue(s: Log) {
    forall t :: t in s.loggers ==> UsesQueue(s.loggers[t])
  }

  /** Nobody is, or can any more get, to a write of the closed stream: there is no logger, or the
      file pointer is null and nobody saw it otherwise, or every logger is stranded at the queue. */
  ghost predicate FileIsSafe(s: Log) {
    && s.fault != DeadFile
    && (|| s.loggers.Keys == {}
        || (s.closer.Closed? && s.mutex == None)
        || (QueueGone(s.closer) && AllInQueue(s)))
  }

  lemma FileSafetyKept(s: Log, a: Action)
    requires MutexHeld(s) && FileIsSafe(s) && Enabled(s, a)
    ensures FileIsSafe(Do(s, a))
  {
    hide Queued;
  }

  lemma {:induction false} SafeFileStaysSafe(s: Log, acts: seq<Action>, r: Log)
    requires Inv(s) && FileIsSafe(s) && Reached(s, acts, r)
    ensures r.fault != DeadFile
    decreases |acts|
  {
    if acts != [] {
      FileSafetyKept(s, acts[0]);
      StepKeepsInv(s, acts[0]);
      hide Inv, FileIsSafe, Do, Enabled;
      SafeFileStaysSafe(Do(s, acts[0]), acts[1..], r);
    }
  }

  function StepsToWrite(l: Logger): nat {
    match l
    case SawAsync(_) => 7
    case WillPush(_) => 6
    case Writing(_) => 5
    case Away => 4
    case Formatted(_) => 3
    case WillWrite(_) => 2
  }

  /** The step `r` brings the close path, the flusher or the logger `t` nearer to a late write. */
  predicate NearerToWrite(s: Log, r: Log, t: TR.Tid)
    requires t in s.loggers
  {
    && r.fault.NoFault? && t in r.loggers && !r.closer.Closed?
    && (QueueGone(r.closer) ==> !UsesQueue(r.loggers[t]))
    && (CloserSteps(r.closer) < CloserSteps(s.closer)
        || (r.closer == s.closer
            && (FlusherSteps(r.flusher) < FlusherSteps(s.flusher)
                || (r.flusher == s.flusher
                    && (StepsToWrite(r.loggers[t]) < StepsToWrite(s.loggers[t])
                        || (r.loggers[t] == s.loggers[t] && Held(r) < Held(s)))))))
  }

  /** While the queue is there: away from the queue first, and on with the close. */
  function NextWithQueue(s: Log, t: TR.Tid): Action
    requires t in s.loggers && !QueueGone(s.closer)
  {
    match s.loggers[t]
    case SawAsync(_) => TestFull(t)
    case WillPush(_) => PushLine(t)
    case _ => NextOfClose(s)
  }

  lemma MovesWithQueue(s: Log, t: TR.Tid)
    requires Inv(s) && s.fault.NoFault? && t in s.loggers && !QueueGone(s.closer)
    ensures Enabled(s, NextWithQueue(s, t)) && NearerToWrite(s, Do(s, NextWithQueue(s, t)), t)
  {
    if UsesQueue(s.loggers[t]) {
      hide Inv, NextOfClose;
    } else {
      hide NextOfClose;
      CloseMoves(s);
      if s.loggers[t].Writing? { WriterStays(s, t); }
      hide Inv, Do, Enabled, NextOfClose;
    }
  }

  /** The close path's step leaves a writing logger alone or lets it write. */
  lemma WriterStays(s: Log, t: TR.Tid)
    requires Inv(s) && s.fault.NoFault? && t in s.loggers && s.loggers[t].Writing? && !QueueGone(s.closer)
    requires Enabled(s, NextOfClose(s))
    ensures var r := Do(s, NextOfClose(s)); t in r.loggers && (r.loggers[t] == s.loggers[t] || r.loggers[t].Away?)
  {
    hide Queued, QueueOrder;
  }

  /** Once it is gone: the mutex free for the flush, the stream closed, the logger to its test. */
  function NextWithoutQueue(s: Log, t: TR.Tid): Action
    requires t in s.loggers && QueueGone(s.closer) && !s.closer.Closed?
  {
    if s.closer.Flushed? then CloseStream
    else if s.mutex.Some? then WriteLine(s.mutex.value)
    else if s.closer.Deleted? then FlushMem
    else match s.loggers[t]
      case Away => Format(t)
      case Formatted(_) => TestAsync(t)
      case _ => TestFile(t)
  }

  /** A logger about to test the file pointer of a closed stream, with the mutex free. */
  predicate AtTheStream(s: Log, t: TR.Tid) {
    s.closer.StreamClosed? && s.mutex == None && t in s.loggers && s.loggers[t].WillWrite?
  }

  lemma MovesWithoutQueue(s: Log, t: TR.Tid)
    requires Inv(s) && s.fault.NoFault? && t in s.loggers && QueueGone(s.closer) && !s.closer.Closed?
    requires !UsesQueue(s.loggers[t]) && !AtTheStream(s, t) && !(s.closer.StreamClosed? && s.mutex.Some?)
    ensures Enabled(s, NextWithoutQueue(s, t)) && NearerToWrite(s, Do(s, NextWithoutQueue(s, t)), t)
  {
    hide QueueOrder, Queued;
  }

  lemma {:induction false} LoggerCanWriteLate(s: Log, t: TR.Tid)
    requires Inv(s) && s.fault.NoFault? && t in s.loggers && !s.closer.Closed?
    requires QueueGone(s.closer) ==> !UsesQueue(s.loggers[t])
    ensures CanEndIn(s, DeadFile)
    decreases CloserSteps(s.closer), FlusherSteps(s.flusher), StepsToWrite(s.loggers[t]), Held(s)
  {
    if s.closer.StreamClosed? && s.mutex.Some? {
      EndsInNow(s, WriteLine(s.mutex.value), DeadFile);
    } else if AtTheStream(s, t) {
      EndsInNow(Do(s, TestFile(t)), WriteLine(t), DeadFile);
      EndsInAfter(s, TestFile(t), DeadFile);
    } else {
      var a := if QueueGone(s.closer) then NextWithoutQueue(s, t) else NextWithQueue(s, t);
      if QueueGone(s.closer) { MovesWithoutQueue(s, t); } else { MovesWithQueue(s, t); }
      StepKeepsInv(s, a);
      hide Inv, Do, Enabled, CanEndIn, NextWithQueue, NextWithoutQueue;
      LoggerCanWriteLate(Do(s, a), t);
      EndsInAfter(s, a, DeadFile);
    }
  }

  /** Exactly when a run can go on to write to the closed stream: once the file pointer is null,
      whenever a logger saw it otherwise; before, once the queue is gone, whenever some logger is
      not stranded there; and before that whenever there is a logger at all. */
  lemma DeadFileIff(start: Log, acts: seq<Action>, s: Log)
    requires Initial(start) && Reached(start, acts, s) && s.fault.NoFault?
    ensures CanEndIn(s, DeadFile) <==>
              if s.closer.Closed? then s.mutex.Some?
              else if QueueGone(s.closer) then !AllInQueue(s)
              else s.loggers.Keys != {}
  {
    InitialInv(start);
    RunKeepsInv(start, acts, s);
    assert MutexHeld(s);
    hide Initial, Queued, QueueOrder, CloseOrder;
    if s.closer.Closed? && s.mutex.Some? {
      EndsInNow(s, WriteLine(s.mutex.value), DeadFile);
    } else if !s.closer.Closed? && QueueGone(s.closer) && !AllInQueue(s) {
      var t :| t in s.loggers && !UsesQueue(s.loggers[t]);
      LoggerCanWriteLate(s, t);
    } else if !QueueGone(s.closer) && s.loggers.Keys != {} {
      var t :| t in s.loggers;
      LoggerCanWriteLate(s, t);
    } else {
      forall more, r | Reached(s, more, r) ensures r.fault != DeadFile { SafeFileStaysSafe(s, more, r); }
    }
  }

  /** From the beginning: an asynchronous log with any thread that logs can come to use its deleted
      queue, and every log with such a thread its closed stream. */
  lemma FaultsFromTheStart(start: Log)
    requires Initial(start)
    ensures CanEndIn(start, DeadQueue) <==> start.isAsync && start.loggers.Keys != {}
    ensures CanEndIn(start, DeadFile) <==> start.loggers.Keys != {}
  {
    assert Reached(start, [], start);
    DeadQueueIff(start, [], start);
    DeadFileIff(start, [], start);
    assert !start.isAsync ==> NobodyInQueue(start);
  }

  // ----- what a close can lose -----

  /** Some run from here loses a submitted line. */
  ghost predicate CanLoseALine(s: Log) {
    exists acts, r, n :: Reached(s, acts, r) && Count(r.lost, n) > Count(s.lost, n)
  }

  lemma LostStayLost(s: Log, a: Action, n: nat)
    requires Enabled(s, a)
    ensures Count(s.lost, n) <= Count(Do(s, a).lost, n)
  {
    var r := Do(s, a);
    assert s.lost <= r.lost;
    assert r.lost == s.lost + r.lost[|s.lost|..];
    CountAppends(s.lost, r.lost[|s.lost|..], n);
  }

  lemma LosesAfter(s: Log, a: Action)
    requires Enabled(s, a) && CanLoseALine(Do(s, a))
    ensures CanLoseALine(s)
  {
    hide Do, Enabled, Count;
    var acts, r, n :| Reached(Do(s, a), acts, r) && Count(r.lost, n) > Count(Do(s, a).lost, n);
    LostStayLost(s, a, n);
    assert ([a] + acts)[1..] == acts;
    assert Reached(s, [a] + acts, r);
  }

  lemma LosesNow(s: Log, a: Action, n: nat)
    requires Enabled(s, a) && Count(Do(s, a).lost, n) > Count(s.lost, n)
    ensures CanLoseALine(s)
  {
    assert Reached(Do(s, a), [], Do(s, a));
    assert [a][1..] == [];
    assert Reached(s, [a], Do(s, a));
  }

  // a queued line

  /** The line waits in the queue, and the flusher is not bound to pop it. */
  predicate Waits(s: Log, i: nat) {
    i < |s.queue| && s.queue[i].Said? && !(i == 0 && s.flusher.Popping?)
  }

  /** The close path's step, with the flag cleared or about to be, moves the line up at most behind
      the one the flusher is bound to pop. */
  lemma WaitingLineStays(s: Log, i: nat) returns (j: nat)
    requires Inv(s) && s.fault.NoFault? && !QueueGone(s.closer) && !s.closer.Joined? && Waits(s, i)
    requires Enabled(s, NextOfClose(s))
    ensures Waits(Do(s, NextOfClose(s)), j)
  {
    hide QueueOrder, Queued;
    j := if NextOfClose(s).PopLine? then i - 1 else i;
  }

  lemma QueuedIsCounted(queue: seq<Line>, i: nat)
    requires i < |queue| && queue[i].Said?
    ensures Count(queue, queue[i].n) > 0
  {
    assert queue[i] in queue;
  }

  lemma {:induction false} WaitingLineCanBeLost(s: Log, i: nat)
    requires Inv(s) && s.fault.NoFault? && !QueueGone(s.closer) && Waits(s, i)
    ensures CanLoseALine(s)
    decreases CloserSteps(s.closer), FlusherSteps(s.flusher), Held(s)
  {
    if s.closer.Joined? {
      var n := s.queue[i].n;
      QueuedIsCounted(s.queue, i);
      CountAppends(s.lost, s.queue, n);
      LosesNow(s, DeleteQueue, n);
    } else {
      CloseMoves(s);
      var j := WaitingLineStays(s, i);
      StepKeepsInv(s, NextOfClose(s));
      QueueStays(s);
      hide Inv, Do, Enabled, CanLoseALine, Waits;
      WaitingLineCanBeLost(Do(s, NextOfClose(s)), j);
      LosesAfter(s, NextOfClose(s));
    }
  }

  /** A queue with lines in it goes only when it is deleted. */
  lemma QueueStays(s: Log)
    requires Inv(s) && s.fault.NoFault? && !QueueGone(s.closer) && !s.closer.Joined? && s.queue != []
    requires Enabled(s, NextOfClose(s))
    ensures !QueueGone(Do(s, NextOfClose(s)).closer)
  {
    hide Queued;
  }

  // a logger

  /** The queue gone, the mutex free from the flush on, the logger not stranded. */
  predicate OnTheWayOut(s: Log, t: TR.Tid) {
    t in s.loggers && (QueueGone(s.closer) ==> !UsesQueue(s.loggers[t]) && (s.closer.Deleted? || s.mutex == None))
  }

  /** Once the queue is gone: to the null file pointer first, then the logger to its test. */
  function NextToNull(s: Log, t: TR.Tid): Action
    requires t in s.loggers && QueueGone(s.closer)
  {
    match s.closer
    case Deleted => if s.mutex.Some? then WriteLine(s.mutex.value) else FlushMem
    case Flushed => CloseStream
    case StreamClosed => NullFile
    case _ =>
      match s.loggers[t]
      case Away => Format(t)
      case Formatted(_) => TestAsync(t)
      case _ => TestFile(t)
  }

  /** The step `r` brings the close path, the flusher or the logger nearer to a lost line. */
  predicate NearerToNull(s: Log, r: Log, t: TR.Tid)
    requires t in s.loggers
  {
    && r.fault.NoFault? && OnTheWayOut(r, t)
    && (CloserSteps(r.closer) < CloserSteps(s.closer)
        || (r.closer == s.closer
            && (FlusherSteps(r.flusher) < FlusherSteps(s.flusher)
                || (r.flusher == s.flusher
                    && (StepsToWrite(r.loggers[t]) < StepsToWrite(s.loggers[t])
                        || (r.loggers[t] == s.loggers[t] && Held(r) < Held(s)))))))
  }

  lemma MovesToNull(s: Log, t: TR.Tid)
    requires Inv(s) && s.fault.NoFault? && OnTheWayOut(s, t) && QueueGone(s.closer)
    requires !(s.closer.Closed? && s.loggers[t].WillWrite?)
    ensures Enabled(s, NextToNull(s, t)) && NearerToNull(s, Do(s, NextToNull(s, t)), t)
  {
    hide QueueOrder, Queued;
  }

  lemma MovesToTheFlush(s: Log, t: TR.Tid)
    requires Inv(s) && s.fault.NoFault? && t in s.loggers && !QueueGone(s.closer)
    ensures Enabled(s, NextWithQueue(s, t)) && NearerToNull(s, Do(s, NextWithQueue(s, t)), t)
  {
    MovesWithQueue(s, t);
    QueueGoesIntoDeleted(s, t);
    hide Inv, Do, Enabled;
  }

  lemma QueueGoesIntoDeleted(s: Log, t: TR.Tid)
    requires t in s.loggers && !QueueGone(s.closer) && Enabled(s, NextWithQueue(s, t))
    ensures QueueGone(Do(s, NextWithQueue(s, t)).closer) ==> Do(s, NextWithQueue(s, t)).closer.Deleted?
  {
    hide Queued;
  }

  lemma LateLineIsLost(s: Log, t: TR.Tid)
    requires Inv(s) && s.fault.NoFault? && OnTheWayOut(s, t) && s.closer.Closed? && s.loggers[t].WillWrite?
    ensures CanLoseALine(s)
  {
    var line := Said(s.loggers[t].n);
    CountAppends(s.lost, [line], line.n);
    CountOne(line, line.n);
    hide Inv, Count;
    LosesNow(s, TestFile(t), line.n);
  }

  lemma {:induction false} LoggerCanLose(s: Log, t: TR.Tid)
    requires Inv(s) && s.fault.NoFault? && OnTheWayOut(s, t)
    ensures CanLoseALine(s)
    decreases CloserSteps(s.closer), FlusherSteps(s.flusher), StepsToWrite(s.loggers[t]), Held(s)
  {
    if s.closer.Closed? && s.loggers[t].WillWrite? {
      LateLineIsLost(s, t);
    } else {
      var a := if QueueGone(s.closer) then NextToNull(s, t) else NextWithQueue(s, t);
      if QueueGone(s.closer) { MovesToNull(s, t); } else { MovesToTheFlush(s, t); }
      StepKeepsInv(s, a);
      hide Inv, Do, Enabled, CanLoseALine, NextWithQueue, NextToNull;
      LoggerCanLose(Do(s, a), t);
      LosesAfter(s, a);
    }
  }

  // nobody to lose a line

  /** No logger, and no queued line but the one the flusher is bound to pop. */
  ghost predicate NothingToLose(s: Log) {
    s.loggers.Keys == {} && forall i :: !Waits(s, i)
  }

  lemma OnlyCallsAreCountless(lines: seq<Line>, n: nat)
    requires forall i :: 0 <= i < |lines| ==> lines[i].Wake?
    ensures Count(lines, n) == 0
  {
    assert Said(n) !in lines;
  }

  lemma NothingToLoseKept(s: Log, a: Action)
    requires Inv(s) && NothingToLose(s) && Enabled(s, a)
    ensures NothingToLose(Do(s, a))
  {
    hide QueueOrder, Queued, Count;
    var r := Do(s, a);
    forall i: nat ensures !Waits(r, i) {
      assert !Waits(s, i) && !Waits(s, i + 1);
    }
  }

  /** Of the steps at which lines are lost only two are left, and neither loses a submitted one. */
  lemma NothingIsLost(s: Log, a: Action, n: nat)
    requires Inv(s) && NothingToLose(s) && Enabled(s, a)
    ensures Count(Do(s, a).lost, n) == Count(s.lost, n)
  {
    hide QueueOrder, Queued, Count;
    LossPoints(s, a);
    if a.PushWake? {
      CountOne(Wake, n);
      CountAppends(s.lost, [Wake], n);
    } else if a.DeleteQueue? {
      forall i | 0 <= i < |s.queue| ensures s.queue[i].Wake? { assert !Waits(s, i); }
      OnlyCallsAreCountless(s.queue, n);
      CountAppends(s.lost, s.queue, n);
    }
  }

  lemma {:induction false} NothingToLoseLosesNothing(s: Log, acts: seq<Action>, r: Log, n: nat)
    requires Inv(s) && NothingToLose(s) && Reached(s, acts, r)
    ensures Count(r.lost, n) == Count(s.lost, n)
    decreases |acts|
  {
    hide Inv, NothingToLose, Do, Enabled, Count;
    if acts != [] {
      NothingToLoseKept(s, acts[0]);
      NothingIsLost(s, acts[0], n);
      StepKeepsInv(s, acts[0]);
      NothingToLoseLosesNothing(Do(s, acts[0]), acts[1..], r, n);
    }
  }

  /** From any state reached before the log is closed, a run can lose a line if and only if somebody
      logs or a line waits in the queue other than the one the flusher is bound to pop. */
  lemma CanLoseIff(start: Log, acts: seq<Action>, s: Log)
    requires Initial(start) && Reached(start, acts, s) && s.closer.Open? && s.fault.NoFault?
    ensures CanLoseALine(s) <==> s.loggers.Keys != {} || exists i: nat :: Waits(s, i)
  {
    InitialInv(start);
    RunKeepsInv(start, acts, s);
    hide Inv, Initial, Do, Enabled, Count, Waits;
    if s.loggers.Keys != {} {
      var t :| t in s.loggers;
      LoggerCanLose(s, t);
    } else if exists i: nat :: Waits(s, i) {
      var i: nat :| Waits(s, i);
      WaitingLineCanBeLost(s, i);
    } else {
      forall more, r, n | Reached(s, more, r) ensures Count(r.lost, n) == Count(s.lost, n) {
        NothingToLoseLosesNothing(s, more, r, n);
      }
    }
  }

  /** From the beginning, in either mode: if and only if somebody logs. */
  lemma CanLoseFromTheStart(start: Log)
    requires Initial(start)
    ensures CanLoseALine(start) <==> start.loggers.Keys != {}
  {
    assert Reached(start, [], start);
    CanLoseIff(start, [], start);
  }
}

/** The logger's hand-off: any number of logging threads, one flusher, one closing thread. Each
    critical section of the queue, each test of the flag and each write is a step. */
module AsyncLog {
  import opened Base
  import TR = TaskRing

  /** A log line by its number in the order of submission, or the closing thread's wake-up call. */
  datatype Line = Said(n: nat) | Wake

  /** Inside `WriteLog`: the line is formatted; the flag was seen set; the queue was seen not full;
      the direct write is next; the mutex is held and the file was seen open. */
  datatype Logger =
    | Away | Formatted(n: nat) | SawAsync(n: nat) | WillPush(n: nat) | WillWrite(n: nat) | Writing(n: nat)

  /** Inside `async_write_log`: at the loop test, the inner test, the pop, holding a line, gone. */
  datatype Flusher = AtLoop | AtIf | Popping | InHand(line: Line) | Exited

  /** Inside `CloseLog`: not called; flag cleared; wake-up pushed and joining; joined; queue
      deleted; stream flushed; stream closed; file pointer null. */
  datatype Closer = Open | Cleared | Joining | Joined | Deleted | Flushed | StreamClosed | Closed

  /** Nothing protects the queue or the stream against being used after `CloseLog` gave them up.
      A run ends where that happens. */
  datatype Fault = NoFault | DeadQueue | DeadFile

  /** A line in the file, and whether it came through the queue. */
  datatype Written = Written(line: Line, queued: bool)

  /** `mutex` is the log's own mutex where it is held across steps. `pushed`, `lost` and `mark` are
      histories: what entered the queue, the lines nobody will write, and how many queued lines
      were written when the flag was cleared. */
  datatype Log = Log(
    isAsync: bool, cap: nat, queue: seq<Line>, loggers: map<TR.Tid, Logger>, mutex: Option<TR.Tid>,
    flusher: Flusher, closer: Closer, file: seq<Written>, fault: Fault,
    submitted: nat, pushed: seq<Line>, lost: seq<Line>, mark: nat)

  datatype Action =
    | Format(t: TR.Tid) | TestAsync(t: TR.Tid) | TestFull(t: TR.Tid) | PushLine(t: TR.Tid)
    | TestFile(t: TR.Tid) | WriteLine(t: TR.Tid)
    | LoopTest | InnerTest | PopLine | WaitFails | WriteQueued
    | ClearFlag | PushWake | Join | DeleteQueue | FlushMem | CloseStream | NullFile

  predicate UsesQueue(l: Logger) { l.SawAsync? || l.WillPush? }

  predicate QueueGone(c: Closer) { c.Deleted? || c.Flushed? || StreamGone(c) }

  predicate StreamGone(c: Closer) { c.StreamClosed? || c.Closed? }

  predicate Enabled(s: Log, a: Action) {
    s.fault.NoFault? &&
    match a
    case Format(t) => t in s.loggers && s.loggers[t].Away? && s.mutex == None
    case TestAsync(t) => t in s.loggers && s.loggers[t].Formatted?
    case TestFull(t) => t in s.loggers && s.loggers[t].SawAsync?
    case PushLine(t) => t in s.loggers && s.loggers[t].WillPush?
    case TestFile(t) => t in s.loggers && s.loggers[t].WillWrite? && s.mutex == None
    case WriteLine(t) => t in s.loggers && s.loggers[t].Writing?
    case LoopTest => s.flusher.AtLoop?
    case InnerTest => s.flusher.AtIf?
    case PopLine => s.flusher.Popping? && s.queue != []
    case WaitFails => s.flusher.Popping? && s.queue == []
    case WriteQueued => s.flusher.InHand? && s.mutex == None
    case ClearFlag => s.closer.Open?
    case PushWake => s.closer.Cleared?
    case Join => s.closer.Joining? && s.flusher.Exited?
    case DeleteQueue => s.closer.Joined?
    case FlushMem => s.closer.Deleted? && s.mutex == None
    case CloseStream => s.closer.Flushed?
    case NullFile => s.closer.StreamClosed?
  }

  function Do(s: Log, a: Action): Log
    requires Enabled(s, a)
  {
    match a
    case Format(t) => s.(submitted := s.submitted + 1, loggers := s.loggers[t := Formatted(s.submitted)])
    case TestAsync(t) =>
      var n := s.loggers[t].n;
      s.(loggers := s.loggers[t := if s.isAsync then SawAsync(n) else WillWrite(n)])
    case TestFull(t) =>
      var n := s.loggers[t].n;
      if QueueGone(s.closer) then s.(fault := DeadQueue)
      else s.(loggers := s.loggers[t := if |s.queue| < s.cap then WillPush(n) else WillWrite(n)])
    case PushLine(t) =>
      if QueueGone(s.closer) then s.(fault := DeadQueue)
      else Push(s.(loggers := s.loggers[t := Away]), Said(s.loggers[t].n))
    case TestFile(t) =>
      var n := s.loggers[t].n;
      if s.closer.Closed? then s.(loggers := s.loggers[t := Away], lost := s.lost + [Said(n)])
      else s.(loggers := s.loggers[t := Writing(n)], mutex := Some(t))
    case WriteLine(t) =>
      if StreamGone(s.closer) then s.(fault := DeadFile)
      else s.(loggers := s.loggers[t := Away], mutex := None,
              file := s.file + [Written(Said(s.loggers[t].n), false)])
    case LoopTest => s.(flusher := if s.isAsync then AtIf else Exited)
    case InnerTest => s.(flusher := if s.isAsync then Popping else AtLoop)
    case PopLine => s.(flusher := InHand(s.queue[0]), queue := s.queue[1..])
    case WaitFails => s.(flusher := AtLoop)
    case WriteQueued => s.(flusher := AtLoop, file := s.file + [Written(s.flusher.line, true)])
    case ClearFlag =>
      if s.isAsync then s.(isAsync := false, closer := Cleared, mark := |Queued(s.file)|)
      else s.(closer := Deleted)
    case PushWake => Push(s.(closer := Joining), Wake)
    case Join => s.(closer := Joined)
    case DeleteQueue => s.(closer := Deleted, lost := s.lost + s.queue, queue := [])
    case FlushMem => s.(closer := Flushed)
    case CloseStream => s.(closer := StreamClosed)
    case NullFile => s.(closer := Closed)
  }

  /** `push`: on a full queue it fails, and neither caller looks. */
  function Push(s: Log, line: Line): Log {
    if |s.queue| >= s.cap then s.(lost := s.lost + [line])
    else s.(queue := s.queue + [line], pushed := s.pushed + [line])
  }

  lemma PushDoes(s: Log, t: TR.Tid)
    requires Enabled(s, PushLine(t))
    ensures var line := Said(s.loggers[t].n);
            Do(s, PushLine(t)) == if QueueGone(s.closer) then s.(fault := DeadQueue)
                                  else Push(s.(loggers := s.loggers[t := Away]), line)
  {}

  /** The lines the flusher wrote, in file order. */
  function Queued(file: seq<Written>): seq<Line> {
    if file == [] then [] else
      var w := file[|file| - 1];
      Queued(file[..|file| - 1]) + if w.queued then [w.line] else []
  }

  /** After `Init`, with a queue and a flusher or without either. */
  predicate Initial(s: Log) {
    && s.queue == [] && s.file == [] && s.submitted == 0 && s.pushed == [] && s.lost == [] && s.closer.Open?
    && s.mark == 0 && s.mutex == None && s.fault.NoFault?
    && (if s.isAsync then s.cap >= 1 && s.flusher.AtLoop? else s.flusher.Exited?)
    && forall t :: t in s.loggers ==> s.loggers[t].Away?
  }

  lemma QueuedAppends(file: seq<Written>, w: Written)
    ensures Queued(file + [w]) == Queued(file) + if w.queued then [w.line] else []
  {
    assert (file + [w])[..|file|] == file;
  }

  // ----- one place for every line -----

  function Lines(file: seq<Written>): seq<Line> {
    seq(|file|, i requires 0 <= i < |file| => file[i].line)
  }

  function HandOf(f: Flusher): seq<Line> {
    if f.InHand? then [f.line] else []
  }

  function HasLine(n: nat): Logger -> bool {
    (l: Logger) => !l.Away? && l.n == n
  }

  function Count(lines: seq<Line>, n: nat): nat {
    multiset(lines)[Said(n)]
  }

  lemma CountAppends(a: seq<Line>, b: seq<Line>, n: nat)
    ensures Count(a + b, n) == Count(a, n) + Count(b, n)
  {
    assert multiset(a + b) == multiset(a) + multiset(b);
  }

  lemma CountOne(line: Line, n: nat)
    ensures Count([line], n) == (if line == Said(n) then 1 else 0) && Count([], n) == 0
  {}

  /** How often line `n` occurs: with a logger, in the queue, in the flusher's hand, in the file, or
      among the lost. */
  ghost function Places(s: Log, n: nat): nat {
    TR.Tally(s.loggers, HasLine(n)) + Count(s.queue, n) + Count(HandOf(s.flusher), n)
    + Count(Lines(s.file), n) + Count(s.lost, n)
  }

  lemma LineWritten(file: seq<Written>, w: Written, n: nat)
    ensures Count(Lines(file + [w]), n) == Count(Lines(file), n) + Count([w.line], n)
  {
    assert Lines(file + [w]) == Lines(file) + [w.line];
    CountAppends(Lines(file), [w.line], n);
  }

  predicate IsLoggerStep(a: Action) {
    a.Format? || a.TestAsync? || a.TestFull? || a.PushLine? || a.TestFile? || a.WriteLine?
  }

  lemma PlacesKeptByTests(s: Log, a: Action, n: nat)
    requires Enabled(s, a) && (a.Format? || a.TestAsync? || a.TestFull?)
    ensures Places(Do(s, a), n) == Places(s, n) + if a.Format? && n == s.submitted then 1 else 0
  {
    TR.TallyStep(s.loggers, a.t, Do(s, a).loggers[a.t], HasLine(n));
    hide Count, Lines, TR.Tally, HandOf, Queued;
  }

  /** The line leaves its logger for the queue, the file or the lost ones. */
  lemma LineHandedOver(s: Log, t: TR.Tid, n: nat)
    requires t in s.loggers && !s.loggers[t].Away?
    ensures var line := Said(s.loggers[t].n);
            && TR.Tally(s.loggers[t := Away], HasLine(n)) + Count([line], n) == TR.Tally(s.loggers, HasLine(n))
            && Count(s.queue + [line], n) == Count(s.queue, n) + Count([line], n)
            && Count(s.lost + [line], n) == Count(s.lost, n) + Count([line], n)
            && Count(Lines(s.file + [Written(line, false)]), n) == Count(Lines(s.file), n) + Count([line], n)
  {
    var line := Said(s.loggers[t].n);
    TR.TallyStep(s.loggers, t, Away, HasLine(n));
    CountOne(line, n);
    CountAppends(s.queue, [line], n);
    CountAppends(s.lost, [line], n);
    LineWritten(s.file, Written(line, false), n);
  }

  lemma PlacesKeptByPush(s: Log, a: Action, n: nat)
    requires Enabled(s, a) && a.PushLine?
    ensures Places(Do(s, a), n) == Places(s, n)
  {
    LineHandedOver(s, a.t, n);
    var line, gone, full := Said(s.loggers[a.t].n), QueueGone(s.closer), |s.queue| >= s.cap;
    assert Do(s, a) == if gone then s.(fault := DeadQueue)
                       else if full then s.(loggers := s.loggers[a.t := Away], lost := s.lost + [line])
                       else s.(loggers := s.loggers[a.t := Away], queue := s.queue + [line],
                               pushed := s.pushed + [line]);
    hide Do, Enabled, Count, Lines, TR.Tally, HandOf;
  }

  lemma PlacesKeptByTestFile(s: Log, a: Action, n: nat)
    requires Enabled(s, a) && a.TestFile?
    ensures Places(Do(s, a), n) == Places(s, n)
  {
    LineHandedOver(s, a.t, n);
    TR.TallyStep(s.loggers, a.t, Do(s, a).loggers[a.t], HasLine(n));
    hide Count, Lines, TR.Tally, HandOf;
  }

  lemma PlacesKeptByWrite(s: Log, a: Action, n: nat)
    requires Enabled(s, a) && a.WriteLine?
    ensures Places(Do(s, a), n) == Places(s, n)
  {
    LineHandedOver(s, a.t, n);
    var r, w, gone := Do(s, a), Written(Said(s.loggers[a.t].n), false), StreamGone(s.closer);
    assert r == if gone then s.(fault := DeadFile)
                else s.(loggers := s.loggers[a.t := Away], mutex := None, file := s.file + [w]);
    hide Do, Enabled, Count, Lines, TR.Tally, HandOf;
  }

  predicate IsFlusherStep(a: Action) {
    a.LoopTest? || a.InnerTest? || a.PopLine? || a.WaitFails? || a.WriteQueued?
  }

  lemma InHandCounts(f: Flusher, n: nat)
    ensures Count(HandOf(f), n) == if f == InHand(Said(n)) then 1 else 0
  {
    CountOne(if f.InHand? then f.line else Wake, n);
  }

  lemma HeadCounts(queue: seq<Line>, n: nat)
    requires queue != []
    ensures Count(queue, n) == Count(queue[1..], n) + if queue[0] == Said(n) then 1 else 0
  {
    assert queue == [queue[0]] + queue[1..];
    CountAppends([queue[0]], queue[1..], n);
    CountOne(queue[0], n);
  }

  lemma PlacesKeptByFlusher(s: Log, a: Action, n: nat)
    requires Enabled(s, a) && IsFlusherStep(a)
    ensures Places(Do(s, a), n) == Places(s, n)
  {
    InHandCounts(s.flusher, n);
    InHandCounts(Do(s, a).flusher, n);
    if a.PopLine? { HeadCounts(s.queue, n); }
    if a.WriteQueued? {
      CountOne(s.flusher.line, n);
      LineWritten(s.file, Written(s.flusher.line, true), n);
    }
    hide Count, Lines, TR.Tally, HandOf, Queued;
  }

  lemma PlacesKeptByCloser(s: Log, a: Action, n: nat)
    requires Enabled(s, a) && !IsLoggerStep(a) && !IsFlusherStep(a)
    ensures Places(Do(s, a), n) == Places(s, n)
  {
    CountOne(Wake, n);
    CountAppends(s.queue, [Wake], n);
    CountAppends(s.lost, [Wake], n);
    CountAppends(s.lost, s.queue, n);
    hide Count, Lines, TR.Tally, HandOf, Queued;
  }

  lemma PlacesKept(s: Log, a: Action, n: nat)
    requires Enabled(s, a)
    ensures Places(Do(s, a), n) == Places(s, n) + if a.Format? && n == s.submitted then 1 else 0
  {
    hide Places, Do;
    if a.PushLine? { PlacesKeptByPush(s, a, n); }
    else if a.TestFile? { PlacesKeptByTestFile(s, a, n); }
    else if a.WriteLine? { PlacesKeptByWrite(s, a, n); }
    else if IsLoggerStep(a) { PlacesKeptByTests(s, a, n); }
    else if IsFlusherStep(a) { PlacesKeptByFlusher(s, a, n); }
    else { PlacesKeptByCloser(s, a, n); }
  }

  /** Some interleaving of steps leads from the start to `s`. */
  ghost predicate Reached(start: Log, acts: seq<Action>, s: Log)
    decreases |acts|
  {
    if acts == [] then s == start
    else Enabled(start, acts[0]) && Reached(Do(start, acts[0]), acts[1..], s)
  }

  lemma SubmittedGrows(s: Log, a: Action)
    requires Enabled(s, a)
    ensures Do(s, a).submitted == s.submitted + if a.Format? then 1 else 0
  {}

  lemma {:induction false} PlacesOverRun(start: Log, acts: seq<Action>, s: Log, n: nat)
    requires Reached(start, acts, s)
    ensures start.submitted <= s.submitted
    ensures Places(s, n) == Places(start, n) + if start.submitted <= n < s.submitted then 1 else 0
    decreases |acts|
  {
    hide Places, Do, Enabled;
    if acts != [] {
      PlacesKept(start, acts[0], n);
      SubmittedGrows(start, acts[0]);
      PlacesOverRun(Do(start, acts[0]), acts[1..], s, n);
    }
  }

  /** With any number of loggers and through any close, up to the first use of a dead queue or file,
      every submitted line is in exactly one place, once: with its logger, in the queue, in the
      flusher's hand, in the file, or lost; no other line is anywhere. */
  lemma EveryLineHasOnePlace(start: Log, acts: seq<Action>, s: Log, n: nat)
    requires Initial(start) && Reached(start, acts, s)
    ensures Places(s, n) == if n < s.submitted then 1 else 0
  {
    TR.TallyZero(start.loggers, HasLine(n));
    CountOne(Wake, n);
    assert Lines(start.file) == [];
    PlacesOverRun(start, acts, s, n);
  }

  // ----- the invariant of both protocols -----

  /** Lines leave the queue in the order they entered it, and the file shows them in that order. */
  ghost predicate QueueOrder(s: Log) {
    Through(s) <= s.pushed && (!QueueGone(s.closer) ==> Through(s) == s.pushed)
  }

  ghost predicate NobodyInQueue(s: Log) {
    forall t :: t in s.loggers ==> !UsesQueue(s.loggers[t])
  }

  ghost predicate CloseOrder(s: Log) {
    && (s.isAsync ==> s.closer.Open? && !s.flusher.Exited?)
    && (!s.flusher.Exited? ==> s.cap >= 1)
    && (s.closer.Open? && !s.isAsync ==> s.flusher.Exited? && s.pushed == [] && NobodyInQueue(s))
    && (s.closer.Joining? && s.flusher.Popping? ==> s.queue != [])
    && (s.closer.Joined? || QueueGone(s.closer) ==> s.flusher.Exited?)
    && (QueueGone(s.closer) ==> s.queue == [])
    && (!s.isAsync ==>
          |Queued(s.file)| + |HandOf(s.flusher)| + (if s.flusher.Popping? then 1 else 0) <= s.mark + 1)
  }

  /** The mutex is held across steps by the logger about to write, and by it alone. */
  ghost predicate MutexHeld(s: Log) {
    forall t :: t in s.loggers && s.loggers[t].Writing? <==> s.mutex == Some(t)
  }

  ghost predicate Inv(s: Log) { QueueOrder(s) && CloseOrder(s) && MutexHeld(s) }

  function Through(s: Log): seq<Line> {
    Queued(s.file) + HandOf(s.flusher) + s.queue
  }

  lemma ThroughKeptByPush(s: Log, a: Action)
    requires Enabled(s, a) && (a.PushLine? || a.PushWake?)
    ensures var r := Do(s, a);
            && s.pushed <= r.pushed && Through(r) == Through(s) + r.pushed[|s.pushed|..]
            && (QueueGone(r.closer) <==> QueueGone(s.closer))
            && (QueueGone(s.closer) ==> r.pushed == s.pushed)
  {
    hide Queued, HandOf;
  }

  lemma ThroughKeptByWrite(s: Log, a: Action)
    requires Enabled(s, a) && a.WriteQueued?
    ensures Through(Do(s, a)) == Through(s)
  {
    QueuedAppends(s.file, Written(s.flusher.line, true));
    assert Do(s, a) == s.(flusher := AtLoop, file := s.file + [Written(s.flusher.line, true)]);
    hide Queued, Do, Enabled;
  }

  lemma ThroughKeptByDirectWrite(s: Log, a: Action)
    requires Enabled(s, a) && a.WriteLine?
    ensures Through(Do(s, a)) == Through(s)
  {
    var w := Written(Said(s.loggers[a.t].n), false);
    QueuedAppends(s.file, w);
    assert Do(s, a).file == s.file || Do(s, a).file == s.file + [w];
    hide Queued, HandOf;
  }

  lemma ThroughKeptByPop(s: Log, a: Action)
    requires Enabled(s, a) && a.PopLine?
    ensures Through(Do(s, a)) == Through(s)
  {
    assert s.queue == [s.queue[0]] + s.queue[1..];
    hide Queued;
  }

  /** The flusher passes lines on; the others write past the queue. */
  lemma ThroughKept(s: Log, a: Action)
    requires Enabled(s, a) && !a.PushLine? && !a.PushWake? && !a.DeleteQueue?
    ensures var r := Do(s, a);
            && r.pushed == s.pushed && Through(r) == Through(s)
            && (QueueGone(r.closer) && !a.ClearFlag? ==> QueueGone(s.closer))
  {
    hide Queued;
    if a.PopLine? { ThroughKeptByPop(s, a); }
    else if a.WriteQueued? { ThroughKeptByWrite(s, a); }
    else if a.WriteLine? { ThroughKeptByDirectWrite(s, a); }
  }

  lemma QueueOrderKept(s: Log, a: Action)
    requires Inv(s) && Enabled(s, a)
    ensures QueueOrder(Do(s, a))
  {
    hide NobodyInQueue, Queued, HandOf;
    if a.DeleteQueue? {
      assert Queued(s.file) + HandOf(s.flusher) + [] <= Through(s);
    } else if a.PushLine? || a.PushWake? {
      ThroughKeptByPush(s, a);
      hide Through, Do, Enabled;
    } else {
      ThroughKept(s, a);
      hide Through, Do, Enabled;
    }
  }

  /** A logger leaves everything the close path looks at alone. */
  lemma LoggerKeepsOut(s: Log, a: Action)
    requires Enabled(s, a) && IsLoggerStep(a)
    ensures var r := Do(s, a);
            && r.isAsync == s.isAsync && r.cap == s.cap && r.closer == s.closer && r.flusher == s.flusher
            && r.mark == s.mark && Queued(r.file) == Queued(s.file)
            && (r.queue == s.queue || (r.queue != [] && !QueueGone(s.closer)))
            && (NobodyInQueue(s) && !s.isAsync ==> NobodyInQueue(r) && r.pushed == s.pushed)
  {
    if a.WriteLine? { QueuedAppends(s.file, Written(Said(s.loggers[a.t].n), false)); }
    hide Queued;
  }

  lemma CloseOrderKeptByLogger(s: Log, a: Action)
    requires Inv(s) && Enabled(s, a) && IsLoggerStep(a)
    ensures CloseOrder(Do(s, a))
  {
    LoggerKeepsOut(s, a);
    hide Queued, HandOf, QueueOrder, MutexHeld, NobodyInQueue, Do, Enabled;
  }

  lemma CloseOrderKeptByWrite(s: Log, a: Action)
    requires Inv(s) && Enabled(s, a) && a.WriteQueued?
    ensures CloseOrder(Do(s, a))
  {
    var w := Written(s.flusher.line, true);
    QueuedAppends(s.file, w);
    assert Do(s, a) == s.(flusher := AtLoop, file := s.file + [w]);
    assert |Queued(s.file + [w])| == |Queued(s.file)| + |HandOf(s.flusher)|;
    hide Queued, HandOf, QueueOrder, Do, Enabled;
    assert HandOf(AtLoop) == [] by { HandOfNobody(); }
  }

  lemma HandOfNobody()
    ensures HandOf(AtLoop) == []
  {}

  lemma CloseOrderKeptByFlusher(s: Log, a: Action)
    requires Inv(s) && Enabled(s, a) && IsFlusherStep(a)
    ensures CloseOrder(Do(s, a))
  {
    if a.WriteQueued? {
      CloseOrderKeptByWrite(s, a);
    } else {
      assert Do(s, a).file == s.file;
    }
    hide Queued, NobodyInQueue, QueueOrder;
  }

  lemma CloseOrderKeptByCloser(s: Log, a: Action)
    requires Inv(s) && Enabled(s, a) && !IsLoggerStep(a) && !IsFlusherStep(a)
    ensures CloseOrder(Do(s, a))
  {
    hide Queued;
  }

  lemma CloseOrderKept(s: Log, a: Action)
    requires Inv(s) && Enabled(s, a)
    ensures CloseOrder(Do(s, a))
  {
    if IsLoggerStep(a) { CloseOrderKeptByLogger(s, a); }
    else if IsFlusherStep(a) { CloseOrderKeptByFlusher(s, a); }
    else { CloseOrderKeptByCloser(s, a); }
  }

  lemma MutexHeldKept(s: Log, a: Action)
    requires Inv(s) && Enabled(s, a)
    ensures MutexHeld(Do(s, a))
  {
    hide QueueOrder, CloseOrder, Queued;
  }

  /** Every step keeps the invariant. */
  lemma StepKeepsInv(s: Log, a: Action)
    requires Inv(s) && Enabled(s, a)
    ensures Inv(Do(s, a))
  {
    MutexHeldKept(s, a);
    QueueOrderKept(s, a);
    CloseOrderKept(s, a);
  }

  lemma InitialInv(s: Log)
    requires Initial(s)
    ensures Inv(s)
  {}

  lemma {:induction false} RunKeepsInv(start: Log, acts: seq<Action>, s: Log)
    requires Inv(start) && Reached(start, acts, s)
    ensures Inv(s)
    decreases |acts|
  {
    hide Inv, Do, Enabled;
    if acts != [] {
      StepKeepsInv(start, acts[0]);
      RunKeepsInv(Do(start, acts[0]), acts[1..], s);
    }
  }

  /** Each step of the schedule can be taken when its turn comes. */
  ghost predicate CanRun(s: Log, acts: seq<Action>)
    decreases |acts|
  {
    acts != [] ==> Enabled(s, acts[0]) && CanRun(Do(s, acts[0]), acts[1..])
  }

  lemma RunAdvances(start: Log, acts: seq<Action>, i: nat, s: Log)
    requires i < |acts| && Reached(start, acts[..i], s) && CanRun(s, acts[i..])
    ensures Enabled(s, acts[i])
    ensures Reached(start, acts[..i + 1], Do(s, acts[i])) && CanRun(Do(s, acts[i]), acts[i + 1..])
  {
    hide Do, Enabled;
    assert acts[i..][0] == acts[i] && acts[i..][1..] == acts[i + 1..] && acts[..i + 1] == acts[..i] + [acts[i]];
    ReachedThen(start, acts[..i], s, acts[i]);
  }

  /** In every run the lines that went through the queue stand in the file in the order they were
      pushed, without a gap; until the queue is deleted, what was pushed and is not written is in
      the flusher's hand or still queued. */
  lemma QueuedLinesKeepTheirOrder(start: Log, acts: seq<Action>, s: Log)
    requires Initial(start) && Reached(start, acts, s)
    ensures Queued(s.file) <= s.pushed
    ensures !QueueGone(s.closer) ==> s.pushed == Queued(s.file) + HandOf(s.flusher) + s.queue
  {
    InitialInv(start);
    RunKeepsInv(start, acts, s);
    assert Queued(s.file) <= Through(s);
  }

  lemma {:induction false} ReachedThen(start: Log, acts: seq<Action>, s: Log, a: Action)
    requires Reached(start, acts, s) && Enabled(s, a)
    ensures Reached(start, acts + [a], Do(s, a))
    decreases |acts|
  {
    hide Do, Enabled;
    if acts == [] {
      assert Reached(Do(s, a), [], Do(s, a));
    } else {
      ReachedThen(Do(start, acts[0]), acts[1..], s, a);
      assert (acts + [a])[1..] == acts[1..] + [a];
    }
  }

  // ----- one logger -----

  /** With at most one logger: nothing lost, and a check that found room still holds at the push. */
  ghost predicate NoLoss(s: Log, t: TR.Tid) {
    && s.loggers.Keys <= {t}
    && (s.closer.Open? ==> s.lost == [] && (t in s.loggers && s.loggers[t].WillPush? ==> |s.queue| < s.cap))
  }

  /** Its queued lines rise, and the line it is handling comes after all of them. */
  ghost predicate RisingLines(s: Log, t: TR.Tid) {
    && s.loggers.Keys <= {t}
    && (t in s.loggers && !s.loggers[t].Away? ==> s.loggers[t].n + 1 == s.submitted)
    && (s.closer.Open? ==>
          && (forall i :: 0 <= i < |s.pushed| ==> s.pushed[i].Said? && Before(s.pushed[i].n, s, t))
          && (forall i, j :: 0 <= i < j < |s.pushed| ==> s.pushed[i].n < s.pushed[j].n))
  }

  predicate Before(n: nat, s: Log, t: TR.Tid) {
    n < s.submitted && (t in s.loggers && !s.loggers[t].Away? ==> n < s.loggers[t].n)
  }

  lemma NoLossKept(s: Log, a: Action, t: TR.Tid)
    requires Inv(s) && NoLoss(s, t) && Enabled(s, a)
    ensures NoLoss(Do(s, a), t)
  {
    hide QueueOrder, Queued;
  }

  lemma RisingKept(s: Log, a: Action, t: TR.Tid)
    requires RisingLines(s, t) && Enabled(s, a)
    ensures RisingLines(Do(s, a), t)
  {
    hide Queued;
  }

  lemma {:induction false} SoleLoggerRun(start: Log, acts: seq<Action>, s: Log, t: TR.Tid)
    requires Inv(start) && NoLoss(start, t) && RisingLines(start, t) && Reached(start, acts, s)
    ensures NoLoss(s, t) && RisingLines(s, t)
    decreases |acts|
  {
    if acts != [] {
      StepKeepsInv(start, acts[0]);
      NoLossKept(start, acts[0], t);
      RisingKept(start, acts[0], t);
      hide Inv, NoLoss, RisingLines, Do, Enabled;
      SoleLoggerRun(Do(start, acts[0]), acts[1..], s, t);
    }
  }

  /** One logging thread and no close: whatever the flusher does, no line is ever lost; each
      submitted line is with the logger, queued, in the flusher's hand or in the file; and the
      queued lines are written in the order they were submitted. */
  lemma OneLoggerLosesNothing(start: Log, acts: seq<Action>, s: Log, t: TR.Tid, n: nat)
    requires Initial(start) && Reached(start, acts, s) && start.loggers.Keys <= {t} && s.closer.Open?
    ensures s.lost == []
    ensures TR.Tally(s.loggers, HasLine(n)) + Count(s.queue, n) + Count(HandOf(s.flusher), n)
            + Count(Lines(s.file), n) == if n < s.submitted then 1 else 0
    ensures forall i :: 0 <= i < |Queued(s.file)| ==> Queued(s.file)[i].Said?
    ensures forall i, j :: 0 <= i < j < |Queued(s.file)| ==> Queued(s.file)[i].n < Queued(s.file)[j].n
  {
    InitialInv(start);
    SoleLoggerRun(start, acts, s, t);
    EveryLineHasOnePlace(start, acts, s, n);
    QueuedLinesKeepTheirOrder(start, acts, s);
  }

  // ----- the file -----

  lemma StepOnlyAppends(s: Log, a: Action)
    requires Enabled(s, a)
    ensures s.file <= Do(s, a).file
  {
    hide Queued;
  }

  /** With any number of loggers the file only ever grows at its end: what stands in it stays where
      it is. */
  lemma {:induction false} FileOnlyGrows(s: Log, acts: seq<Action>, r: Log)
    requires Reached(s, acts, r)
    ensures s.file <= r.file
    decreases |acts|
  {
    if acts != [] {
      StepOnlyAppends(s, acts[0]);
      hide Do, Enabled;
      FileOnlyGrows(Do(s, acts[0]), acts[1..], r);
    }
  }

  /** One logger and no queue: the file holds the lines so far, one after the other; while the file
      pointer is set only the line in hand is missing. */
  ghost predicate Consecutive(s: Log, t: TR.Tid) {
    && s.loggers.Keys <= {t} && !s.isAsync && s.flusher.Exited?
    && (t in s.loggers && !s.loggers[t].Away? ==> s.loggers[t].n + 1 == s.submitted)
    && (forall i :: 0 <= i < |s.file| ==> s.file[i] == Written(Said(i), false))
    && (!s.closer.Closed? ==>
          |s.file| == if t in s.loggers && !s.loggers[t].Away? then s.submitted - 1 else s.submitted)
  }

  lemma ConsecutiveKept(s: Log, a: Action, t: TR.Tid)
    requires Consecutive(s, t) && Enabled(s, a)
    requires forall u :: u in s.loggers ==> !UsesQueue(s.loggers[u])
    ensures Consecutive(Do(s, a), t)
  {
    hide Queued;
  }

  /** Without a queue nobody comes to use one. */
  lemma NoQueueNoUse(s: Log, a: Action)
    requires Enabled(s, a) && !s.isAsync && NobodyInQueue(s)
    ensures !Do(s, a).isAsync && NobodyInQueue(Do(s, a))
  {
    hide Queued;
  }

  lemma {:induction false} ConsecutiveRun(s: Log, acts: seq<Action>, r: Log, t: TR.Tid)
    requires Consecutive(s, t) && NobodyInQueue(s) && Reached(s, acts, r)
    ensures Consecutive(r, t)
    decreases |acts|
  {
    if acts != [] {
      ConsecutiveKept(s, acts[0], t);
      NoQueueNoUse(s, acts[0]);
      hide Do, Enabled, Consecutive, NobodyInQueue;
      ConsecutiveRun(Do(s, acts[0]), acts[1..], r, t);
    }
  }

  /** One logging thread and a log without a queue: the lines of the file are the submitted ones from
      the first on, in order and without a gap, and until the file pointer is null only the one in
      hand is missing. */
  lemma LinesAreConsecutive(start: Log, acts: seq<Action>, s: Log, t: TR.Tid)
    requires Initial(start) && Reached(start, acts, s) && !start.isAsync && start.loggers.Keys <= {t}
    ensures forall i :: 0 <= i < |s.file| ==> s.file[i] == Written(Said(i), false)
    ensures !s.closer.Closed? ==>
              |s.file| == if t in s.loggers && !s.loggers[t].Away? then s.submitted - 1 else s.submitted
  {
    hide Reached;
    ConsecutiveRun(start, acts, s, t);
  }

  /** The lines one logger writes by itself rise, and the one it is handling comes after them. */
  ghost predicate DirectRising(s: Log, t: TR.Tid) {
    && s.loggers.Keys <= {t}
    && (t in s.loggers && !s.loggers[t].Away? ==> s.loggers[t].n + 1 == s.submitted)
    && (forall i :: 0 <= i < |s.file| && !s.file[i].queued ==> s.file[i].line.Said? && Before(s.file[i].line.n, s, t))
    && (forall i, j :: 0 <= i < j < |s.file| && !s.file[i].queued && !s.file[j].queued ==>
          s.file[i].line.n < s.file[j].line.n)
  }

  lemma DirectRisingKept(s: Log, a: Action, t: TR.Tid)
    requires DirectRising(s, t) && Enabled(s, a)
    ensures DirectRising(Do(s, a), t)
  {
    hide Queued;
  }

  lemma {:induction false} DirectRisingRun(s: Log, acts: seq<Action>, r: Log, t: TR.Tid)
    requires DirectRising(s, t) && Reached(s, acts, r)
    ensures DirectRising(r, t)
    decreases |acts|
  {
    if acts != [] {
      DirectRisingKept(s, acts[0], t);
      hide Do, Enabled, DirectRising;
      DirectRisingRun(Do(s, acts[0]), acts[1..], r, t);
    }
  }

  /** One logging thread, with or without a queue and through any close: the lines written past the
      queue stand in the file in the order they were submitted. */
  lemma DirectLinesRise(start: Log, acts: seq<Action>, s: Log, t: TR.Tid, i: nat, j: nat)
    requires Initial(start) && Reached(start, acts, s) && start.loggers.Keys <= {t}
    requires i < j < |s.file| && !s.file[i].queued && !s.file[j].queued
    ensures s.file[i].line.Said? && s.file[j].line.Said? && s.file[i].line.n < s.file[j].line.n
  {
    hide Reached;
    DirectRisingRun(start, acts, s, t);
  }

  // ----- several loggers -----

  /** Where the model lets a line be lost: a push that finds the queue full after all, deleting a
      queue that is not empty, and a direct write that finds the file pointer null. */
  lemma LossPoints(s: Log, a: Action)
    requires Enabled(s, a)
    ensures Do(s, a).lost != s.lost <==>
              || ((a.PushLine? || a.PushWake?) && Do(s, a).fault.NoFault? && |s.queue| >= s.cap)
              || (a.DeleteQueue? && s.queue != [])
              || (a.TestFile? && s.closer.Closed?)
  {}

  /** A logger that finds room is about to push. */
  lemma CheckedBy(start: Log, acts: seq<Action>, s: Log, t: TR.Tid) returns (more: seq<Action>, r: Log)
    requires Reached(start, acts, s) && s.fault.NoFault? && s.mutex == None && !QueueGone(s.closer)
    requires t in s.loggers && s.loggers[t].Away? && s.isAsync && |s.queue| < s.cap
    ensures Reached(start, more, r)
    ensures r == s.(submitted := s.submitted + 1, loggers := s.loggers[t := WillPush(s.submitted)])
  {
    var s1 := Do(s, Format(t));
    ReachedThen(start, acts, s, Format(t));
    ReachedThen(start, acts + [Format(t)], s1, TestAsync(t));
    var s2 := Do(s1, TestAsync(t));
    ReachedThen(start, acts + [Format(t)] + [TestAsync(t)], s2, TestFull(t));
    more, r := acts + [Format(t)] + [TestAsync(t)] + [TestFull(t)], Do(s2, TestFull(t));
  }

  /** A logger that holds the mutex can write and let go of it. */
  lemma MutexFreed(start: Log, acts: seq<Action>, s: Log) returns (more: seq<Action>, r: Log)
    requires Inv(s) && Reached(start, acts, s) && s.fault.NoFault? && s.isAsync
    ensures Reached(start, more, r) && r.mutex == None && r.fault.NoFault?
    ensures forall t :: t in s.loggers && s.loggers[t].Away? ==> t in r.loggers && r.loggers[t].Away?
    ensures r.closer == s.closer == Open && r.isAsync && r.cap == s.cap && r.queue == s.queue && r.lost == s.lost
            && r.submitted == s.submitted
  {
    more, r := acts, s;
    if s.mutex.Some? {
      ReachedThen(start, acts, s, WriteLine(s.mutex.value));
      more, r := acts + [WriteLine(s.mutex.value)], Do(s, WriteLine(s.mutex.value));
    }
  }

  /** Two loggers that both see the last free place lose the second line, wherever it happens. */
  lemma TwoLoggersCanLose(start: Log, acts: seq<Action>, s: Log, t: TR.Tid, u: TR.Tid)
    returns (more: seq<Action>, r: Log)
    requires Initial(start) && Reached(start, acts, s) && s.fault.NoFault? && s.isAsync && |s.queue| + 1 == s.cap
    requires t in s.loggers && s.loggers[t].Away? && u in s.loggers && s.loggers[u].Away? && t != u
    ensures Reached(start, more, r) && r.closer == s.closer && r.lost == s.lost + [Said(s.submitted + 1)]
  {
    hide Inv, Initial, Reached, Do, Enabled;
    InitialInv(start);
    RunKeepsInv(start, acts, s);
    var acts0, s0 := MutexFreed(start, acts, s);
    more, r := BothCheckAndPush(start, acts0, s0, t, u);
  }

  lemma BothCheckAndPush(start: Log, acts: seq<Action>, s: Log, t: TR.Tid, u: TR.Tid)
    returns (more: seq<Action>, r: Log)
    requires Reached(start, acts, s) && s.fault.NoFault? && s.isAsync && s.mutex == None && !QueueGone(s.closer)
    requires t in s.loggers && s.loggers[t].Away? && u in s.loggers && s.loggers[u].Away? && t != u
    requires |s.queue| + 1 == s.cap
    ensures Reached(start, more, r) && r.closer == s.closer && r.lost == s.lost + [Said(s.submitted + 1)]
  {
    hide Reached, QueueGone, Do, Enabled;
    var acts1, s1 := CheckedBy(start, acts, s, t);
    var acts2, s2 := CheckedBy(start, acts1, s1, u);
    more, r := BothPush(start, acts2, s2, t, u);
  }

  lemma BothPush(start: Log, acts: seq<Action>, s: Log, t: TR.Tid, u: TR.Tid) returns (more: seq<Action>, r: Log)
    requires Reached(start, acts, s) && s.fault.NoFault? && !QueueGone(s.closer) && |s.queue| + 1 == s.cap
    requires t in s.loggers && u in s.loggers && t != u && s.loggers[t].WillPush? && s.loggers[u].WillPush?
    ensures Reached(start, more, r) && r.closer == s.closer && r.lost == s.lost + [Said(s.loggers[u].n)]
  {
    hide Reached;
    ReachedThen(start, acts, s, PushLine(t));
    var s1 := Do(s, PushLine(t));
    ReachedThen(start, acts + [PushLine(t)], s1, PushLine(u));
    more, r := acts + [PushLine(t)] + [PushLine(u)], Do(s1, PushLine(u));
  }

  /** One logger by itself can fill the queue up to its last place. */
  lemma {:induction false} FillQueue(start: Log, acts: seq<Action>, s: Log, t: TR.Tid)
    returns (more: seq<Action>, r: Log)
    requires Reached(start, acts, s) && s.fault.NoFault? && s.mutex == None && !QueueGone(s.closer)
    requires t in s.loggers && s.loggers[t].Away? && s.isAsync && |s.queue| < s.cap
    ensures Reached(start, more, r) && |r.queue| + 1 == r.cap
    ensures r == s.(queue := r.queue, pushed := r.pushed, submitted := r.submitted)
    decreases s.cap - |s.queue|
  {
    more, r := acts, s;
    if |s.queue| + 1 < s.cap {
      var acts1, s1 := CheckedBy(start, acts, s, t);
      ReachedThen(start, acts1, s1, PushLine(t));
      var s2 := Do(s1, PushLine(t));
      assert s2.loggers == s.loggers;
      more, r := FillQueue(start, acts1 + [PushLine(t)], s2, t);
    }
  }

  ghost predicate CanLose(start: Log) {
    exists acts, s :: Reached(start, acts, s) && s.closer.Open? && s.lost != []
  }

  lemma TwoMayLose(start: Log, t: TR.Tid, u: TR.Tid)
    requires Initial(start) && start.isAsync && t in start.loggers && u in start.loggers && t != u
    ensures CanLose(start)
  {
    assert Reached(start, [], start);
    hide Do, Enabled;
    var acts1, s1 := FillQueue(start, [], start, t);
    var acts, s := TwoLoggersCanLose(start, acts1, s1, t, u);
  }

  /** Without a close, an asynchronous logger with a queue of any length can lose a line if and
      only if at least two threads log. */
  lemma OnlySeveralLoggersLose(start: Log)
    requires Initial(start) && start.isAsync
    ensures CanLose(start) <==> exists t, u :: t in start.loggers && u in start.loggers && t != u
  {
    if t, u :| t in start.loggers && u in start.loggers && t != u {
      TwoMayLose(start, t, u);
    } else {
      var t := if start.loggers.Keys == {} then 0 else var t :| t in start.loggers; t;
      forall acts, s | Reached(start, acts, s) && s.closer.Open? ensures s.lost == [] {
        OneLoggerLosesNothing(start, acts, s, t, 0);
      }
    }
  }
}

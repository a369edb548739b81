/** The logger object: each method is one atomic piece of `WriteLog`, `async_write_log` or
    `CloseLog`. The abstract log it moves is the one whose runs `AsyncLog` reasons about. */
module CLog {
  import TR = TaskRing
  import opened Base
  import BQ = BlockQueue
  import AL = AsyncLog

  class Log {
    var isAsync: bool
    var logQueue: BQ.BlockQueue?<AL.Line>
    /** The log's own mutex. */
    var mutex: Option<TR.Tid>
    /** What the stream received, whether it is open, and whether the file pointer is not null. */
    var file: seq<AL.Written>
    var streamOpen: bool
    var filePointer: bool
    ghost const cap: nat
    ghost var loggers: map<TR.Tid, AL.Logger>
    ghost var flusher: AL.Flusher
    ghost var closer: AL.Closer
    ghost var fault: AL.Fault
    ghost var submitted: nat
    ghost var pushed: seq<AL.Line>
    ghost var lost: seq<AL.Line>
    ghost var mark: nat

    ghost function Footprint(): set<object>
      reads this
    {
      if logQueue == null then {} else {logQueue, logQueue.cells}
    }

    ghost predicate Valid()
      reads this, Footprint()
    {
      && (logQueue != null ==> logQueue.Valid() && logQueue.maxSize == cap)
      && (logQueue == null <==> AL.QueueGone(closer) || (closer.Open? && !isAsync))
      && (streamOpen <==> !AL.StreamGone(closer)) && (filePointer <==> !closer.Closed?)
      && AL.Inv(View())
    }

    ghost function Waiting(): seq<AL.Line>
      reads this, Footprint()
    {
      if logQueue != null && logQueue.Valid() then logQueue.Waiting() else []
    }

    ghost function View(): AL.Log
      reads this, Footprint()
    {
      AL.Log(isAsync, cap, Waiting(), loggers, mutex, flusher, closer, file, fault,
             submitted, pushed, lost, mark)
    }

    ghost predicate Can(a: AL.Action)
      reads this, Footprint()
    {
      Valid() && AL.Enabled(View(), a)
    }

    /** `Init`: a queue and a flusher only when the queue size asks for them. */
    constructor (maxQueueSize: int, ghost threads: set<TR.Tid>)
      requires maxQueueSize < 0x8000_0000
      ensures Valid() && AL.Initial(View()) && isAsync == (maxQueueSize >= 1)
      ensures loggers.Keys == threads && fresh(Footprint())
    {
      isAsync := maxQueueSize >= 1;
      logQueue := null;
      file, streamOpen, filePointer, mutex := [], true, true, None;
      cap := if maxQueueSize >= 1 then maxQueueSize else 0;
      loggers := map t | t in threads :: AL.Away;
      flusher, closer := if maxQueueSize >= 1 then AL.AtLoop else AL.Exited, AL.Open;
      fault, submitted, pushed, lost, mark := AL.NoFault, 0, [], [], 0;
      new;
      if maxQueueSize >= 1 { logQueue := new BQ.BlockQueue<AL.Line>(maxQueueSize); }
      AL.InitialInv(View());
    }

    // ----- WriteLog -----

    method Format(ghost t: TR.Tid)
      requires Can(AL.Format(t))
      modifies this
      ensures Valid() && View() == AL.Do(old(View()), AL.Format(t)) && logQueue == old(logQueue)
    {
      hide AL.Inv;
      AL.StepKeepsInv(View(), AL.Format(t));
      loggers, submitted := loggers[t := AL.Formatted(submitted)], submitted + 1;
    }

    /** `isAsync`, at the start of the condition. */
    method TestAsync(ghost t: TR.Tid) returns (seen: bool)
      requires Can(AL.TestAsync(t))
      modifies this
      ensures Valid() && View() == AL.Do(old(View()), AL.TestAsync(t)) && logQueue == old(logQueue) && seen == isAsync
    {
      hide AL.Inv;
      AL.StepKeepsInv(View(), AL.TestAsync(t));
      seen := isAsync;
      ghost var n := loggers[t].n;
      loggers := loggers[t := if seen then AL.SawAsync(n) else AL.WillWrite(n)];
    }

    /** `!m_log_queue->full()`. The source has no null test here: the first branch records the call
        on a queue that `CloseLog` deleted. */
    method TestFull(ghost t: TR.Tid) returns (room: bool)
      requires Can(AL.TestFull(t))
      modifies this
      ensures Valid() && View() == AL.Do(old(View()), AL.TestFull(t)) && logQueue == old(logQueue)
      ensures fault.NoFault? ==> room == (|Waiting()| < cap)
    {
      NullMeansGone(t);
      AL.StepKeepsInv(View(), AL.TestFull(t));
      hide AL.Inv;
      if logQueue == null {
        fault := AL.DeadQueue;
        return false;
      }
      var full := logQueue.Full();
      room := !full;
      ghost var n := loggers[t].n;
      loggers := loggers[t := if room then AL.WillPush(n) else AL.WillWrite(n)];
    }

    /** A logger that saw the flag set finds the queue unless the close path has deleted it. */
    lemma NullMeansGone(t: TR.Tid)
      requires Valid() && t in loggers && AL.UsesQueue(loggers[t])
      ensures logQueue == null <==> AL.QueueGone(closer)
    {
      assert AL.CloseOrder(View());
    }

    /** `m_log_queue->push(strLog)`, on a queue that may be gone as well. */
    method PushLine(ghost t: TR.Tid, line: AL.Line)
      requires Can(AL.PushLine(t)) && line == AL.Said(loggers[t].n)
      modifies this, logQueue, Footprint()
      ensures Valid() && View() == AL.Do(old(View()), AL.PushLine(t)) && logQueue == old(logQueue)
    {
      NullMeansGone(t);
      AL.StepKeepsInv(View(), AL.PushLine(t));
      AL.PushDoes(View(), t);
      hide AL.Inv, AL.Do;
      if logQueue == null {
        fault := AL.DeadQueue;
      } else {
        var _ := PushOn(line);
        loggers := loggers[t := AL.Away];
      }
    }

    /** The push itself, on a queue that is there. */
    method PushOn(line: AL.Line) returns (ok: bool)
      requires logQueue != null && logQueue.Valid() && logQueue.maxSize == cap
      modifies this`pushed, this`lost, logQueue, logQueue.cells
      ensures logQueue.Valid() && logQueue.cells == old(logQueue.cells)
      ensures View() == AL.Push(old(View()), line)
    {
      ok := logQueue.Push(line);
      if ok { pushed := pushed + [line]; } else { lost := lost + [line]; }
    }

    /** Takes the mutex and tests the file pointer; returns whether a write follows. */
    method TestFile(t: TR.Tid, line: AL.Line) returns (open: bool)
      requires Can(AL.TestFile(t)) && line == AL.Said(loggers[t].n)
      modifies this
      ensures Valid() && View() == AL.Do(old(View()), AL.TestFile(t)) && open == filePointer
      ensures logQueue == old(logQueue)
    {
      hide AL.Inv;
      AL.StepKeepsInv(View(), AL.TestFile(t));
      open := filePointer;
      if filePointer {
        mutex, loggers := Some(t), loggers[t := AL.Writing(loggers[t].n)];
      } else {
        lost, loggers := lost + [line], loggers[t := AL.Away];
      }
    }

    /** `fwrite` and the release of the mutex. The source has no test here: the first branch records
        a write to a stream that `CloseLog` closed. */
    method WriteLine(ghost t: TR.Tid, line: AL.Line)
      requires Can(AL.WriteLine(t)) && line == AL.Said(loggers[t].n)
      modifies this
      ensures Valid() && View() == AL.Do(old(View()), AL.WriteLine(t)) && logQueue == old(logQueue)
    {
      hide AL.Inv;
      AL.StepKeepsInv(View(), AL.WriteLine(t));
      if !streamOpen {
        fault := AL.DeadFile;
        return;
      }
      file := file + [AL.Written(line, false)];
      mutex, loggers := None, loggers[t := AL.Away];
    }

    // ----- async_write_log -----

    method LoopTest() returns (again: bool)
      requires Can(AL.LoopTest)
      modifies this
      ensures Valid() && View() == AL.Do(old(View()), AL.LoopTest) && logQueue == old(logQueue) && again == isAsync
    {
      hide AL.Inv;
      AL.StepKeepsInv(View(), AL.LoopTest);
      again := isAsync;
      flusher := if again then AL.AtIf else AL.Exited;
    }

    method InnerTest() returns (again: bool)
      requires Can(AL.InnerTest)
      modifies this
      ensures Valid() && View() == AL.Do(old(View()), AL.InnerTest) && logQueue == old(logQueue) && again == isAsync
    {
      hide AL.Inv;
      AL.StepKeepsInv(View(), AL.InnerTest);
      again := isAsync;
      flusher := if again then AL.Popping else AL.AtLoop;
    }

    /** The pop, once there is something to pop. */
    method PopLine() returns (line: AL.Line)
      requires Can(AL.PopLine)
      modifies this, logQueue
      ensures Valid() && View() == AL.Do(old(View()), AL.PopLine) && flusher == AL.InHand(line)
      ensures logQueue == old(logQueue)
    {
      AL.StepKeepsInv(View(), AL.PopLine);
      hide AL.Inv;
      var answer := logQueue.Pop(false);
      line := answer.x;
      flusher := AL.InHand(line);
    }

    /** The pop whose wait fails. */
    method WaitFails()
      requires Can(AL.WaitFails)
      modifies this, logQueue
      ensures Valid() && View() == AL.Do(old(View()), AL.WaitFails) && logQueue == old(logQueue)
    {
      AL.StepKeepsInv(View(), AL.WaitFails);
      hide AL.Inv;
      var _ := logQueue.Pop(true);
      flusher := AL.AtLoop;
    }

    method WriteQueued(line: AL.Line)
      requires Can(AL.WriteQueued) && flusher == AL.InHand(line)
      modifies this
      ensures Valid() && View() == AL.Do(old(View()), AL.WriteQueued) && logQueue == old(logQueue)
    {
      hide AL.Inv;
      AL.StepKeepsInv(View(), AL.WriteQueued);
      file := file + [AL.Written(line, true)];
      flusher := AL.AtLoop;
    }

    // ----- CloseLog -----

    /** The null test on the file and the test and reset of the flag. */
    method ClearFlag() returns (join: bool)
      requires Can(AL.ClearFlag)
      modifies this
      ensures Valid() && View() == AL.Do(old(View()), AL.ClearFlag) && join == old(isAsync)
      ensures logQueue == old(logQueue)
    {
      hide AL.Inv;
      AL.StepKeepsInv(View(), AL.ClearFlag);
      join := isAsync;
      if isAsync {
        isAsync := false;
        closer, mark := AL.Cleared, |AL.Queued(file)|;
      } else {
        closer := AL.Deleted;
      }
    }

    method PushWake()
      requires Can(AL.PushWake)
      modifies this, logQueue, Footprint()
      ensures Valid() && View() == AL.Do(old(View()), AL.PushWake) && logQueue == old(logQueue)
    {
      AL.StepKeepsInv(View(), AL.PushWake);
      hide AL.Inv;
      var _ := PushOn(AL.Wake);
      closer := AL.Joining;
    }

    /** `Join` returned; `FlushQueue` sees the flag cleared and does nothing. */
    method FlushQueue()
      requires Can(AL.Join)
      modifies this
      ensures Valid() && View() == AL.Do(old(View()), AL.Join) && logQueue == old(logQueue)
    {
      hide AL.Inv;
      AL.StepKeepsInv(View(), AL.Join);
      closer := AL.Joined;
    }

    method DeleteQueue()
      requires Can(AL.DeleteQueue)
      modifies this
      ensures Valid() && View() == AL.Do(old(View()), AL.DeleteQueue) && logQueue == null
    {
      hide AL.Inv;
      AL.StepKeepsInv(View(), AL.DeleteQueue);
      lost := lost + Waiting();
      logQueue := null;
      closer := AL.Deleted;
    }

    method FlushMem()
      requires Can(AL.FlushMem)
      modifies this
      ensures Valid() && View() == AL.Do(old(View()), AL.FlushMem) && logQueue == old(logQueue)
    {
      hide AL.Inv;
      AL.StepKeepsInv(View(), AL.FlushMem);
      closer := AL.Flushed;
    }

    /** `fclose`, outside the mutex. */
    method CloseStream()
      requires Can(AL.CloseStream)
      modifies this
      ensures Valid() && View() == AL.Do(old(View()), AL.CloseStream) && logQueue == old(logQueue)
    {
      hide AL.Inv;
      AL.StepKeepsInv(View(), AL.CloseStream);
      streamOpen := false;
      closer := AL.StreamClosed;
    }

    /** `m_fp = NULL`, outside the mutex. */
    method NullFile()
      requires Can(AL.NullFile)
      modifies this
      ensures Valid() && View() == AL.Do(old(View()), AL.NullFile) && logQueue == old(logQueue)
    {
      hide AL.Inv;
      AL.StepKeepsInv(View(), AL.NullFile);
      filePointer := false;
      closer := AL.Closed;
    }

    // ----- whole runs -----

    /** The line each logger carries through `WriteLog`, in its own variable. */
    ghost predicate Carried(lines: map<TR.Tid, AL.Line>)
      reads this
    {
      forall t :: t in loggers && !loggers[t].Away? ==> t in lines && lines[t] == AL.Said(loggers[t].n)
    }

    /** A logger's step; `count` numbers the lines as they are submitted. */
    method LoggerStep(a: AL.Action, lines: map<TR.Tid, AL.Line>, count: nat)
      returns (carried: map<TR.Tid, AL.Line>, submissions: nat)
      requires Can(a) && AL.IsLoggerStep(a) && Carried(lines) && count == submitted
      modifies this, logQueue, Footprint()
      ensures Valid() && View() == AL.Do(old(View()), a) && logQueue == old(logQueue)
      ensures Carried(carried) && submissions == submitted
    {
      hide AL.Inv;
      carried, submissions := lines, count;
      match a {
        case Format(t) =>
          carried, submissions := lines[t := AL.Said(count)], count + 1;
          Format(t);
        case TestAsync(t) => var _ := TestAsync(t);
        case TestFull(t) => var _ := TestFull(t);
        case PushLine(t) => PushLine(t, lines[t]);
        case TestFile(t) => var _ := TestFile(t, lines[t]);
        case WriteLine(t) => WriteLine(t, lines[t]);
      }
    }

    /** A step of the flusher, with the line it may have in its variable. */
    method FlusherStep(a: AL.Action, hand: AL.Line) returns (line: AL.Line)
      requires Can(a) && AL.IsFlusherStep(a) && (flusher.InHand? ==> flusher.line == hand)
      modifies this, logQueue
      ensures Valid() && View() == AL.Do(old(View()), a) && logQueue == old(logQueue)
      ensures flusher.InHand? ==> flusher.line == line
    {
      hide AL.Inv;
      line := hand;
      match a {
        case LoopTest => var _ := LoopTest();
        case InnerTest => var _ := InnerTest();
        case PopLine => line := PopLine();
        case WaitFails => WaitFails();
        case WriteQueued => WriteQueued(hand);
      }
    }

    method CloserStep(a: AL.Action)
      requires Can(a) && !AL.IsLoggerStep(a) && !AL.IsFlusherStep(a)
      modifies this, logQueue, Footprint()
      ensures Valid() && View() == AL.Do(old(View()), a) && (logQueue == null || logQueue == old(logQueue))
    {
      hide AL.Inv;
      match a {
        case ClearFlag => var _ := ClearFlag();
        case PushWake => PushWake();
        case Join => FlushQueue();
        case DeleteQueue => DeleteQueue();
        case FlushMem => FlushMem();
        case CloseStream => CloseStream();
        case NullFile => NullFile();
      }
    }

    /** Any step, with the threads' variables. */
    method Step(a: AL.Action, lines: map<TR.Tid, AL.Line>, count: nat, hand: AL.Line)
      returns (carried: map<TR.Tid, AL.Line>, submissions: nat, line: AL.Line)
      requires Can(a) && Carried(lines) && count == submitted && (flusher.InHand? ==> flusher.line == hand)
      modifies this, logQueue, Footprint()
      ensures Valid() && View() == AL.Do(old(View()), a) && (logQueue == null || logQueue == old(logQueue))
      ensures Carried(carried) && submissions == submitted && (flusher.InHand? ==> flusher.line == line)
    {
      OthersKeepTheirLines(View(), a);
      hide AL.Inv, AL.Do;
      carried, submissions, line := lines, count, hand;
      if AL.IsLoggerStep(a) {
        carried, submissions := LoggerStep(a, lines, count);
      } else if AL.IsFlusherStep(a) {
        line := FlusherStep(a, hand);
      } else {
        CloserStep(a);
      }
    }

    /** The object carries out any interleaving of its threads' steps that can happen, up to a use of
        a deleted queue or closed stream, and what it then holds is what that run reaches: all that
        is proved of runs holds of it. */
    method Run(acts: seq<AL.Action>)
      requires Valid() && AL.Initial(View()) && AL.CanRun(View(), acts)
      modifies this, Footprint()
      ensures Valid() && AL.Reached(old(View()), acts, View())
    {
      ghost var start, queue := View(), logQueue;
      var lines: map<TR.Tid, AL.Line>, count, hand := map[], 0, AL.Wake;
      assert acts[0..] == acts && acts[..0] == [] && AL.Reached(start, [], start);
      assert Carried(lines) && count == submitted && !flusher.InHand?;
      hide AL.Inv, AL.Initial, AL.Do, AL.Enabled, AL.Reached, AL.CanRun, Log.Carried;
      for i := 0 to |acts|
        invariant Valid() && Carried(lines) && count == submitted && (flusher.InHand? ==> flusher.line == hand)
        invariant logQueue == null || logQueue == queue
        invariant AL.Reached(start, acts[..i], View()) && AL.CanRun(View(), acts[i..])
      {
        AL.RunAdvances(start, acts, i, View());
        lines, count, hand := Step(acts[i], lines, count, hand);
      }
      assert acts[..|acts|] == acts;
    }
  }

  /** A step leaves the variables of the other threads alone. */
  lemma OthersKeepTheirLines(s: AL.Log, a: AL.Action)
    requires AL.Enabled(s, a)
    ensures !AL.IsLoggerStep(a) ==> AL.Do(s, a).loggers == s.loggers && AL.Do(s, a).submitted == s.submitted
    ensures !AL.IsFlusherStep(a) ==> AL.Do(s, a).flusher == s.flusher
  {}
}

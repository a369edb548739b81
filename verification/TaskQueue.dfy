/** The task queue object: each method is one atomic statement of `Push` or `Pop`, carried out by
    the thread `t`. The abstract ring it moves is the one whose runs `TaskRing` reasons about. */
module TaskQueue {
  import opened Base
  import opened TaskRing

  class CTaskQueue<V(0)> {
    const cache: array<V>
    var producer: nat
    var consumer: nat
    var semProducer: nat
    var semConsumer: nat
    var mutexProducer: Option<Tid>
    var mutexConsumer: Option<Tid>
    /** The threads' places in the code, and what has passed the cursors. */
    ghost var pushers: map<Tid, PushPc<V>>
    ghost var poppers: map<Tid, PopPc<V>>
    ghost var written: seq<V>
    ghost var taken: seq<V>

    ghost function View(): Ring<V>
      reads this, cache
    {
      Ring(cache[..], producer, consumer, semProducer, semConsumer, mutexProducer, mutexConsumer,
           pushers, poppers, written, taken)
    }

    ghost predicate Can(a: Action<V>)
      reads this, cache
    {
      Inv(View()) && Enabled(View(), a)
    }

    /** A queue of any positive length, and the threads that will use it. */
    constructor (len: nat, ghost producers: set<Tid>, ghost consumers: set<Tid>)
      requires len > 0
      ensures Initial(View()) && Inv(View()) && cache.Length == len && fresh(cache)
      ensures pushers.Keys == producers && poppers.Keys == consumers
    {
      cache := new V[len];
      producer, consumer := 0, 0;
      semProducer, semConsumer := len, 0;
      mutexProducer, mutexConsumer := None, None;
      pushers, poppers := map t | t in producers :: NoPush, map t | t in consumers :: NoPop;
      written, taken := [], [];
      new;
      InitialInv(View());
    }

    method IsEmpty() returns (empty: bool)
      requires Inv(View())
      ensures empty <==> |written| - |taken| == 0 || |written| - |taken| == cache.Length
    {
      empty := consumer == producer;
      TokenBounds(View());
      LapsApart(|taken|, |written|, cache.Length);
    }

    // ----- Push(ac) -----

    method CallPush(ghost t: Tid, ac: V)
      requires Can(Action.CallPush(t, ac))
      modifies this
      ensures View() == Do(old(View()), Action.CallPush(t, ac)) && Inv(View())
    {
      hide Inv;
      StepKeepsInv(View(), Action.CallPush(t, ac));
      pushers := pushers[t := PushWaits(ac)];
    }

    method WaitProducer(ghost t: Tid, ac: V)
      requires Can(Action.WaitProducer(t)) && pushers[t].v == ac
      modifies this
      ensures View() == Do(old(View()), Action.WaitProducer(t)) && Inv(View())
    {
      hide Inv;
      StepKeepsInv(View(), Action.WaitProducer(t));
      semProducer := semProducer - 1;
      pushers := pushers[t := PushHasToken(ac)];
    }

    method LockProducer(t: Tid, ac: V)
      requires Can(Action.LockProducer(t)) && pushers[t].v == ac
      modifies this
      ensures View() == Do(old(View()), Action.LockProducer(t)) && Inv(View())
    {
      hide Inv;
      StepKeepsInv(View(), Action.LockProducer(t));
      mutexProducer := Some(t);
      pushers := pushers[t := PushLocked(ac)];
    }

    method WriteSlot(ghost t: Tid, ac: V)
      requires Can(Action.WriteSlot(t)) && pushers[t].v == ac
      modifies this, cache
      ensures View() == Do(old(View()), Action.WriteSlot(t)) && Inv(View())
    {
      hide Inv;
      StepKeepsInv(View(), Action.WriteSlot(t));
      cache[producer] := ac;
      pushers := pushers[t := PushWrote(ac)];
    }

    method MoveProducer(ghost t: Tid, ac: V)
      requires Can(Action.MoveProducer(t)) && pushers[t].v == ac
      modifies this
      ensures View() == Do(old(View()), Action.MoveProducer(t)) && Inv(View())
    {
      hide Inv;
      StepKeepsInv(View(), Action.MoveProducer(t));
      if producer == cache.Length - 1 {
        producer := 0;
      } else {
        producer := producer + 1;
      }
      written, pushers := written + [ac], pushers[t := PushMoved(ac)];
    }

    method UnlockProducer(ghost t: Tid, ac: V)
      requires Can(Action.UnlockProducer(t)) && pushers[t].v == ac
      modifies this
      ensures View() == Do(old(View()), Action.UnlockProducer(t)) && Inv(View())
    {
      hide Inv;
      StepKeepsInv(View(), Action.UnlockProducer(t));
      mutexProducer := None;
      pushers := pushers[t := PushPosts(ac)];
    }

    method PostConsumer(ghost t: Tid)
      requires Can(Action.PostConsumer(t))
      modifies this
      ensures View() == Do(old(View()), Action.PostConsumer(t)) && Inv(View())
    {
      hide Inv;
      StepKeepsInv(View(), Action.PostConsumer(t));
      semConsumer := semConsumer + 1;
      pushers := pushers[t := NoPush];
    }

    // ----- Pop(ac) -----

    method CallPop(ghost t: Tid)
      requires Can(Action.CallPop(t))
      modifies this
      ensures View() == Do(old(View()), Action.CallPop(t)) && Inv(View())
    {
      hide Inv;
      StepKeepsInv(View(), Action.CallPop(t));
      poppers := poppers[t := PopWaits];
    }

    method WaitConsumer(ghost t: Tid)
      requires Can(Action.WaitConsumer(t))
      modifies this
      ensures View() == Do(old(View()), Action.WaitConsumer(t)) && Inv(View())
    {
      hide Inv;
      StepKeepsInv(View(), Action.WaitConsumer(t));
      semConsumer := semConsumer - 1;
      poppers := poppers[t := PopHasToken];
    }

    method LockConsumer(t: Tid)
      requires Can(Action.LockConsumer(t))
      modifies this
      ensures View() == Do(old(View()), Action.LockConsumer(t)) && Inv(View())
    {
      hide Inv;
      StepKeepsInv(View(), Action.LockConsumer(t));
      mutexConsumer := Some(t);
      poppers := poppers[t := PopLocked];
    }

    method ReadSlot(ghost t: Tid) returns (ac: V)
      requires Can(Action.ReadSlot(t))
      modifies this
      ensures View() == Do(old(View()), Action.ReadSlot(t)) && Inv(View())
      ensures poppers[t] == PopRead(ac)
    {
      hide Inv;
      StepKeepsInv(View(), Action.ReadSlot(t));
      ac := cache[consumer];
      poppers := poppers[t := PopRead(ac)];
    }

    method MoveConsumer(ghost t: Tid, ac: V)
      requires Can(Action.MoveConsumer(t)) && poppers[t].v == ac
      modifies this
      ensures View() == Do(old(View()), Action.MoveConsumer(t)) && Inv(View())
    {
      hide Inv;
      StepKeepsInv(View(), Action.MoveConsumer(t));
      if consumer == cache.Length - 1 {
        consumer := 0;
      } else {
        consumer := consumer + 1;
      }
      taken, poppers := taken + [ac], poppers[t := PopMoved(ac)];
    }

    method UnlockConsumer(ghost t: Tid, ac: V)
      requires Can(Action.UnlockConsumer(t)) && poppers[t].v == ac
      modifies this
      ensures View() == Do(old(View()), Action.UnlockConsumer(t)) && Inv(View())
    {
      hide Inv;
      StepKeepsInv(View(), Action.UnlockConsumer(t));
      mutexConsumer := None;
      poppers := poppers[t := PopPosts(ac)];
    }

    method PostProducer(ghost t: Tid)
      requires Can(Action.PostProducer(t))
      modifies this
      ensures View() == Do(old(View()), Action.PostProducer(t)) && Inv(View())
    {
      hide Inv;
      StepKeepsInv(View(), Action.PostProducer(t));
      semProducer := semProducer + 1;
      poppers := poppers[t := NoPop];
    }

    // ----- whole operations and whole runs -----

    /** Up to the write: the token, the mutex and the slot. */
    method EnterPush(t: Tid, ac: V)
      requires Inv(View()) && t in pushers && pushers[t] == NoPush && semProducer > 0 && mutexProducer == None
      modifies this, cache
      ensures Inv(View()) && cache[..] == old(cache[..])[producer := ac]
      ensures View() == old(View()).(cache := cache[..], semProducer := old(semProducer) - 1,
                                     mutexProducer := Some(t), pushers := old(pushers)[t := PushWrote(ac)])
    {
      hide Inv;
      CallPush(t, ac);
      WaitProducer(t, ac);
      LockProducer(t, ac);
      WriteSlot(t, ac);
    }

    /** `Push` by a thread that nobody delays: its statements in the order of the source. */
    method Push(t: Tid, ac: V)
      requires Inv(View()) && t in pushers && pushers[t] == NoPush && semProducer > 0 && mutexProducer == None
      modifies this, cache
      ensures Inv(View()) && pushers == old(pushers) && mutexProducer == None
      ensures written == old(written) + [ac] && taken == old(taken)
      ensures semConsumer == old(semConsumer) + 1 && semProducer == old(semProducer) - 1
    {
      hide Inv;
      EnterPush(t, ac);
      MoveProducer(t, ac);
      UnlockProducer(t, ac);
      PostConsumer(t);
    }

    /** Up to the mutex. */
    method ClaimPop(t: Tid)
      requires Inv(View()) && t in poppers && poppers[t] == NoPop && semConsumer > 0 && mutexConsumer == None
      modifies this
      ensures Inv(View())
      ensures View() == old(View()).(semConsumer := old(semConsumer) - 1, mutexConsumer := Some(t),
                                     poppers := old(poppers)[t := PopLocked])
    {
      hide Inv;
      CallPop(t);
      WaitConsumer(t);
      LockConsumer(t);
    }

    /** Up to the read. */
    method EnterPop(t: Tid) returns (ac: V)
      requires Inv(View()) && t in poppers && poppers[t] == NoPop && semConsumer > 0 && mutexConsumer == None
      modifies this
      ensures Inv(View())
      ensures View() == old(View()).(semConsumer := old(semConsumer) - 1, mutexConsumer := Some(t),
                                     poppers := old(poppers)[t := PopRead(ac)])
    {
      hide Inv;
      ClaimPop(t);
      ac := ReadSlot(t);
    }

    /** `Pop` by a thread that nobody delays: it returns the oldest value. */
    method Pop(t: Tid) returns (ac: V)
      requires Inv(View()) && t in poppers && poppers[t] == NoPop && semConsumer > 0 && mutexConsumer == None
      modifies this
      ensures Inv(View()) && poppers == old(poppers) && mutexConsumer == None
      ensures taken == old(taken) + [ac] && written == old(written) && taken <= written
      ensures semProducer == old(semProducer) + 1 && semConsumer == old(semConsumer) - 1
    {
      hide Inv;
      ac := EnterPop(t);
      MoveConsumer(t, ac);
      UnlockConsumer(t, ac);
      PostProducer(t);
      TakenIsPrefix();
    }

    lemma TakenIsPrefix()
      requires Inv(View())
      ensures taken <= written
    {}

    /** The value each thread carries through its operation, in its own variable. */
    ghost predicate Carried(inPush: map<Tid, V>, inPop: map<Tid, V>)
      reads this
    {
      && (forall t :: t in pushers && !pushers[t].NoPush? && !pushers[t].PushPosts? ==>
            t in inPush && inPush[t] == pushers[t].v)
      && (forall t :: t in poppers && (poppers[t].PopRead? || poppers[t].PopMoved?) ==>
            t in inPop && inPop[t] == poppers[t].v)
    }

    method PushStep(a: Action<V>, inPush: map<Tid, V>, ghost inPop: map<Tid, V>) returns (carried: map<Tid, V>)
      requires Can(a) && IsPushStep(a) && Carried(inPush, inPop)
      modifies this, cache
      ensures View() == Do(old(View()), a) && Inv(View()) && Carried(carried, inPop)
    {
      hide Inv;
      carried := inPush;
      match a {
        case CallPush(t, v) =>
          carried := inPush[t := v];
          CallPush(t, v);
        case WaitProducer(t) => WaitProducer(t, inPush[t]);
        case LockProducer(t) => LockProducer(t, inPush[t]);
        case WriteSlot(t) => WriteSlot(t, inPush[t]);
        case MoveProducer(t) => MoveProducer(t, inPush[t]);
        case UnlockProducer(t) => UnlockProducer(t, inPush[t]);
        case PostConsumer(t) => PostConsumer(t);
      }
    }

    method PopStep(a: Action<V>, ghost inPush: map<Tid, V>, inPop: map<Tid, V>) returns (carried: map<Tid, V>)
      requires Can(a) && !IsPushStep(a) && Carried(inPush, inPop)
      modifies this
      ensures View() == Do(old(View()), a) && Inv(View()) && Carried(inPush, carried)
    {
      hide Inv;
      carried := inPop;
      match a {
        case CallPop(t) => CallPop(t);
        case WaitConsumer(t) => WaitConsumer(t);
        case LockConsumer(t) => LockConsumer(t);
        case ReadSlot(t) =>
          var ac := ReadSlot(t);
          carried := inPop[t := ac];
        case MoveConsumer(t) => MoveConsumer(t, inPop[t]);
        case UnlockConsumer(t) => UnlockConsumer(t, inPop[t]);
        case PostProducer(t) => PostProducer(t);
      }
    }

    /** The object carries out any interleaving of its threads' statements that can happen, and what
        it then holds is what that run reaches: all that is proved of runs holds of it. */
    method Run(acts: seq<Action<V>>)
      requires Initial(View()) && CanRun(View(), acts)
      modifies this, cache
      ensures Inv(View()) && Reached(old(View()), acts, View())
    {
      InitialInv(View());
      ghost var start := View();
      var inPush: map<Tid, V>, inPop: map<Tid, V> := map[], map[];
      assert acts[0..] == acts && acts[..0] == [] && Reached(start, [], start);
      hide Inv, Do, Enabled, Reached, CanRun;
      for i := 0 to |acts|
        invariant Inv(View()) && Carried(inPush, inPop)
        invariant Reached(start, acts[..i], View()) && CanRun(View(), acts[i..])
      {
        RunAdvances(start, acts, i, View());
        hide CTaskQueue.Carried;
        if IsPushStep(acts[i]) {
          inPush := PushStep(acts[i], inPush, inPop);
        } else {
          inPop := PopStep(acts[i], inPush, inPop);
        }
      }
      assert acts[..|acts|] == acts;
    }
  }

  lemma RunAdvances<V>(start: Ring<V>, acts: seq<Action<V>>, i: nat, s: Ring<V>)
    requires i < |acts| && Reached(start, acts[..i], s) && CanRun(s, acts[i..])
    ensures Sized(s) && Enabled(s, acts[i])
    ensures Reached(start, acts[..i + 1], Do(s, acts[i])) && CanRun(Do(s, acts[i]), acts[i + 1..])
  {
    hide Do, Enabled;
    assert acts[i..][0] == acts[i] && acts[i..][1..] == acts[i + 1..] && acts[..i + 1] == acts[..i] + [acts[i]];
    ReachedThen(start, acts[..i], s, acts[i]);
  }

  /** Each statement of the schedule can be carried out when its turn comes. */
  ghost predicate CanRun<V>(s: Ring<V>, acts: seq<Action<V>>)
    decreases |acts|
  {
    acts != [] ==> Sized(s) && Enabled(s, acts[0]) && CanRun(Do(s, acts[0]), acts[1..])
  }

  ghost function Outcome<V>(s: Ring<V>, acts: seq<Action<V>>): Ring<V>
    requires CanRun(s, acts)
    decreases |acts|
  {
    if acts == [] then s else Outcome(Do(s, acts[0]), acts[1..])
  }

  /** A schedule that can run leads to one state, and only such schedules lead anywhere. */
  lemma {:induction false} CanRunReaches<V>(s: Ring<V>, acts: seq<Action<V>>, r: Ring<V>)
    ensures Reached(s, acts, r) <==> CanRun(s, acts) && r == Outcome(s, acts)
    decreases |acts|
  {
    if acts != [] && Sized(s) && Enabled(s, acts[0]) {
      CanRunReaches(Do(s, acts[0]), acts[1..], r);
    }
  }
}

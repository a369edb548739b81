/** The index arithmetic shared by both monitor rings: `front` and `back` start at minus one,
    which one ring keeps in a signed and the other in an unsigned 32-bit field. */
module MonitorRing {
  import opened Modular

  const WRAP := 0x1_0000_0000

  datatype Kind = Signed | Unsigned

  /** What the field holds after it is assigned -1. */
  function Start(kind: Kind): int {
    if kind.Signed? then -1 else WRAP - 1
  }

  /** `(i + 1) % max` in the field's arithmetic: an unsigned sum wraps before the remainder. */
  function Next(kind: Kind, i: int, max: int): int
    requires max > 0
  {
    if kind.Signed? then (i + 1) % max else (i + 1) % WRAP % max
  }

  /** The fields of a ring besides its array. */
  datatype Cursor = Cursor(kind: Kind, max: int, size: int, front: int, back: int)

  /** Where a cursor value stands on the ring; the start value stands before slot 0. */
  function Pos(kind: Kind, i: int, max: int): int {
    if i == Start(kind) then max - 1 else i
  }

  predicate OnRing(kind: Kind, i: int, max: int) {
    i == Start(kind) || 0 <= i < max
  }

  /** `back` is `front` advanced by `size`, modulo the capacity. */
  ghost predicate Ok(c: Cursor) {
    && 0 < c.max < WRAP / 2 && 0 <= c.size <= c.max
    && OnRing(c.kind, c.front, c.max) && OnRing(c.kind, c.back, c.max)
    && Pos(c.kind, c.back, c.max) == (Pos(c.kind, c.front, c.max) + c.size) % c.max
    && (c.size > 0 ==> c.back != Start(c.kind))
  }

  function Fresh(kind: Kind, max: int): Cursor {
    Cursor(kind, max, 0, Start(kind), Start(kind))
  }

  /** The slot of the `i`-th waiting element. */
  function Slot(c: Cursor, i: int): int
    requires c.max > 0
  {
    (Pos(c.kind, c.front, c.max) + 1 + i) % c.max
  }

  /** The waiting elements, oldest first. */
  function Contents<T>(slots: seq<T>, c: Cursor): seq<T>
    requires Ok(c) && |slots| == c.max
  {
    seq(c.size, i requires 0 <= i < c.size => slots[Slot(c, i)])
  }

  /** `Push` and `Pop` on the fields. */
  function Pushed(c: Cursor): Cursor
    requires c.max > 0
  {
    c.(back := Next(c.kind, c.back, c.max), size := c.size + 1)
  }

  function Popped(c: Cursor): Cursor
    requires c.max > 0
  {
    c.(front := Next(c.kind, c.front, c.max), size := c.size - 1)
  }

  /** Both arithmetics step to the next slot, the start value included. */
  lemma NextIsNextSlot(kind: Kind, i: int, max: int)
    requires 0 < max < WRAP / 2 && OnRing(kind, i, max)
    ensures 0 <= Next(kind, i, max) < max && Next(kind, i, max) != Start(kind)
    ensures Next(kind, i, max) == (Pos(kind, i, max) + 1) % max
    ensures Next(kind, i, max) == if Pos(kind, i, max) == max - 1 then 0 else Pos(kind, i, max) + 1
  {
    ModWithinTwoLaps(Pos(kind, i, max) + 1, max);
    ModWithinTwoLaps(0, max);
    if i == Start(kind) {
      assert Next(kind, i, max) == 0 % max;
    } else if kind.Unsigned? {
      ModWithinTwoLaps(i + 1, WRAP);
    }
  }

  lemma SlotIs(c: Cursor, i: int)
    requires Ok(c) && 0 <= i <= c.max
    ensures var p := Pos(c.kind, c.front, c.max) + 1 + i;
            Slot(c, i) == (if p < c.max then p else if p < 2 * c.max then p - c.max else p - 2 * c.max)
    ensures 0 <= Slot(c, i) < c.max
  {
    var p := Pos(c.kind, c.front, c.max) + 1 + i;
    if p < 2 * c.max { ModWithinTwoLaps(p, c.max); } else { MultipleMod(2, p - 2 * c.max, c.max); }
  }

  lemma BackIs(c: Cursor)
    requires Ok(c)
    ensures var p := Pos(c.kind, c.front, c.max) + c.size;
            Pos(c.kind, c.back, c.max) == if p < c.max then p else p - c.max
    ensures c.size > 0 ==> c.back == Slot(c, c.size - 1)
  {
    ModWithinTwoLaps(Pos(c.kind, c.front, c.max) + c.size, c.max);
    if c.size > 0 { SlotIs(c, c.size - 1); }
  }

  lemma FreshIsOk(kind: Kind, max: int)
    requires 0 < max < WRAP / 2
    ensures Ok(Fresh(kind, max))
  {
    ModWithinTwoLaps(max - 1, max);
  }

  lemma PushedIsOk(c: Cursor)
    requires Ok(c) && c.size < c.max
    ensures Ok(Pushed(c)) && Pushed(c).back == Slot(c, c.size)
  {
    NextIsNextSlot(c.kind, c.back, c.max);
    BackIs(c);
    SlotIs(c, c.size);
    ModWithinTwoLaps(Pos(c.kind, c.front, c.max) + c.size + 1, c.max);
  }

  lemma PoppedIsOk(c: Cursor)
    requires Ok(c) && c.size > 0
    ensures Ok(Popped(c)) && Popped(c).front == Slot(c, 0)
    ensures forall i :: 0 <= i < c.size - 1 ==> Slot(Popped(c), i) == Slot(c, i + 1)
  {
    var r := Popped(c);
    NextIsNextSlot(c.kind, c.front, c.max);
    BackIs(c);
    SlotIs(c, 0);
    ModWithinTwoLaps(Pos(r.kind, r.front, r.max) + r.size, c.max);
    forall i | 0 <= i < c.size - 1 ensures Slot(r, i) == Slot(c, i + 1) {
      SlotIs(r, i);
      SlotIs(c, i + 1);
    }
  }

  /** Elements less than a lap apart lie in different slots. */
  lemma SlotsDiffer(c: Cursor, i: int, j: int)
    requires Ok(c) && 0 <= i < j < c.max
    ensures 0 <= Slot(c, i) < c.max && 0 <= Slot(c, j) < c.max && Slot(c, i) != Slot(c, j)
  {
    SlotIs(c, i);
    SlotIs(c, j);
  }

  /** Writing the next back slot appends, whatever the two index fields' arithmetic. */
  lemma PushAppends<T>(slots: seq<T>, c: Cursor, x: T)
    requires Ok(c) && |slots| == c.max && c.size < c.max
    ensures Ok(Pushed(c)) && 0 <= Pushed(c).back < c.max
    ensures Contents(slots[Pushed(c).back := x], Pushed(c)) == Contents(slots, c) + [x]
  {
    PushedIsOk(c);
    SlotIs(c, c.size);
    var after := Contents(slots[Pushed(c).back := x], Pushed(c));
    forall i | 0 <= i < c.size ensures after[i] == Contents(slots, c)[i] {
      SlotsDiffer(c, i, c.size);
    }
    assert after == Contents(slots, c) + [x];
  }

  /** Reading the next front slot takes the oldest element, whatever is left in that slot. */
  lemma PopTakesTheOldest<T>(slots: seq<T>, c: Cursor, junk: T)
    requires Ok(c) && |slots| == c.max && c.size > 0
    ensures Ok(Popped(c)) && 0 <= Popped(c).front < c.max
    ensures [slots[Popped(c).front]] + Contents(slots[Popped(c).front := junk], Popped(c)) == Contents(slots, c)
  {
    PoppedIsOk(c);
    SlotIs(c, 0);
    var front := Popped(c).front;
    var after := Contents(slots[front := junk], Popped(c));
    forall i | 0 <= i < c.size - 1 ensures after[i] == Contents(slots, c)[i + 1] {
      SlotsDiffer(c, 0, i + 1);
    }
    assert [slots[front]] + after == Contents(slots, c);
  }

  /** `back()` shows the element pushed last. */
  lemma BackIsTheNewest<T>(slots: seq<T>, c: Cursor)
    requires Ok(c) && |slots| == c.max && c.size > 0
    ensures 0 <= c.back < c.max && slots[c.back] == Contents(slots, c)[c.size - 1]
  {
    BackIs(c);
  }

  lemma AsManyAsSize<T>(slots: seq<T>, c: Cursor)
    requires Ok(c) && |slots| == c.max
    ensures |Contents(slots, c)| == c.size
  {}

  // ----- whole runs -----

  datatype Op<T> = Push(x: T) | Pop(waitFails: bool) | Clear

  /** What a call answers: a push whether it went in; a pop its element, that it sleeps, or that the
      wait failed. */
  datatype Answer<T> = Pushing(ok: bool) | Got(x: T) | Sleeps | Failed | Cleared

  /** The bounded sequence both rings stand for. */
  function SpecStep<T>(q: seq<T>, max: nat, op: Op<T>): (seq<T>, Answer<T>) {
    match op
    case Push(x) => if |q| >= max then (q, Pushing(false)) else (q + [x], Pushing(true))
    case Pop(fails) => if q == [] then (q, if fails then Failed else Sleeps) else (q[1..], Got(q[0]))
    case Clear => ([], Cleared)
  }

  function SpecRun<T>(q: seq<T>, max: nat, ops: seq<Op<T>>): seq<Answer<T>>
    decreases |ops|
  {
    if ops == [] then [] else
      var (r, a) := SpecStep(q, max, ops[0]);
      [a] + SpecRun(r, max, ops[1..])
  }

  /** A ring with its array; a pop leaves in the slot what `wipe` makes of it. */
  datatype Buf<T> = Buf(slots: seq<T>, c: Cursor)

  ghost predicate Holds<T>(b: Buf<T>, q: seq<T>) {
    Ok(b.c) && |b.slots| == b.c.max && Contents(b.slots, b.c) == q
  }

  function RingStep<T>(b: Buf<T>, wipe: T -> T, op: Op<T>): (Buf<T>, Answer<T>)
    requires Ok(b.c) && |b.slots| == b.c.max
  {
    match op
    case Push(x) =>
      if b.c.size >= b.c.max then (b, Pushing(false)) else
        PushAppends(b.slots, b.c, x);
        (Buf(b.slots[Pushed(b.c).back := x], Pushed(b.c)), Pushing(true))
    case Pop(fails) =>
      if b.c.size <= 0 then (b, if fails then Failed else Sleeps) else
        PopTakesTheOldest(b.slots, b.c, b.slots[0]);
        var x := b.slots[Popped(b.c).front];
        (Buf(b.slots[Popped(b.c).front := wipe(x)], Popped(b.c)), Got(x))
    case Clear => (Buf(b.slots, Fresh(b.c.kind, b.c.max)), Cleared)
  }

  lemma StepRefines<T>(b: Buf<T>, wipe: T -> T, op: Op<T>, q: seq<T>)
    requires Holds(b, q)
    ensures var ((r, a), (p, e)) := (RingStep(b, wipe, op), SpecStep(q, b.c.max, op));
            Holds(r, p) && a == e && r.c.max == b.c.max && r.c.kind == b.c.kind
  {
    match op
    case Push(x) => if b.c.size < b.c.max { PushAppends(b.slots, b.c, x); }
    case Pop(_) => {
      if b.c.size > 0 {
        var x := b.slots[Popped(b.c).front];
        PopTakesTheOldest(b.slots, b.c, wipe(x));
      }
    }
    case Clear => FreshIsOk(b.c.kind, b.c.max);
  }

  function RingRun<T>(b: Buf<T>, wipe: T -> T, ops: seq<Op<T>>): seq<Answer<T>>
    requires Ok(b.c) && |b.slots| == b.c.max
    decreases |ops|
  {
    if ops == [] then [] else
      StepRefines(b, wipe, ops[0], Contents(b.slots, b.c));
      var (r, a) := RingStep(b, wipe, ops[0]);
      [a] + RingRun(r, wipe, ops[1..])
  }

  lemma {:induction false} RunRefines<T>(b: Buf<T>, wipe: T -> T, ops: seq<Op<T>>, q: seq<T>)
    requires Holds(b, q)
    ensures RingRun(b, wipe, ops) == SpecRun(q, b.c.max, ops)
    decreases |ops|
  {
    if ops != [] {
      StepRefines(b, wipe, ops[0], q);
      RunRefines(RingStep(b, wipe, ops[0]).0, wipe, ops[1..], SpecStep(q, b.c.max, ops[0]).0);
    }
  }

  /** Over every run from an empty ring of any capacity, with signed or unsigned indices, the
      answers are those of a bounded sequence. */
  lemma RingIsABoundedQueue<T>(kind: Kind, slots: seq<T>, wipe: T -> T, ops: seq<Op<T>>)
    requires 0 < |slots| < WRAP / 2
    ensures Ok(Fresh(kind, |slots|))
    ensures RingRun(Buf(slots, Fresh(kind, |slots|)), wipe, ops) == SpecRun([], |slots|, ops)
  {
    FreshIsOk(kind, |slots|);
    RunRefines(Buf(slots, Fresh(kind, |slots|)), wipe, ops, []);
  }
}

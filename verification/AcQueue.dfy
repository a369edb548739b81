/** The output ring: unsigned 32-bit indices over slots that are packet records, so that a push
    and a pop copy buffers. Each method is one critical section of the source's operation. */
module AcQueue {
  import opened MonitorRing
  import opened PacketContent

  type u32 = x: int | 0 <= x < WRAP

  class CACQueue {
    const heap: Allocator
    const cells: seq<AnalContent>
    const maxSize: u32
    var size: u32
    var front: u32
    var back: u32
    /** What the slots hold. */
    ghost var slots: seq<Packet>

    ghost function View(): Cursor
      reads this
    {
      Cursor(Unsigned, maxSize, size, front, back)
    }

    ghost predicate Distinct() {
      forall i, j :: 0 <= i < j < |cells| ==> cells[i] != cells[j]
    }

    ghost predicate Valid()
      reads this, heap, heap.records, heap.live
    {
      Ok(View()) && |cells| == |slots| == maxSize && SlotsHold()
    }

    /** The slots are records of their own and hold the packets they should. */
    ghost predicate SlotsHold()
      reads this`slots, heap, heap.records, heap.live
    {
      && heap.Sound() && |cells| == |slots| && Distinct()
      && (forall i :: 0 <= i < |cells| ==> cells[i] in heap.records)
      && (forall i :: 0 <= i < |cells| ==> cells[i].Value() == slots[i])
    }

    ghost function Waiting(): seq<Packet>
      reads this
      requires Ok(View()) && |slots| == maxSize
    {
      Contents(slots, View())
    }

    constructor (heap: Allocator, maxSize: int)
      requires 0 < maxSize < 0x8000_0000 && heap.Sound()
      modifies heap`records
      ensures this.heap == heap && Valid() && this.maxSize == maxSize && Waiting() == []
      ensures front == back == 0xffff_ffff
      ensures heap.records == old(heap.records) + set ac | ac in cells
      ensures forall ac :: ac in cells ==> fresh(ac)
    {
      this.heap, this.maxSize := heap, maxSize;
      var slots: seq<AnalContent> := [];
      while |slots| < maxSize
        invariant |slots| <= maxSize && heap.Sound()
        invariant heap.records == old(heap.records) + set ac | ac in slots
        invariant forall i, j :: 0 <= i < j < |slots| ==> slots[i] != slots[j]
        invariant forall ac :: ac in slots ==> fresh(ac) && ac.Value() == Packet([], [], NO_FIELDS)
      {
        var ac := new AnalContent(heap);
        slots := slots + [ac];
      }
      cells := slots;
      this.slots := seq(maxSize, i => Packet([], [], NO_FIELDS));
      size, front, back := 0, WRAP - 1, WRAP - 1;
      new;
      FreshIsOk(Unsigned, maxSize);
    }

    method Clear()
      requires Valid()
      modifies this
      ensures Valid() && Waiting() == [] && slots == old(slots) && front == back == 0xffff_ffff
    {
      size, front, back := 0, WRAP - 1, WRAP - 1;
      FreshIsOk(Unsigned, maxSize);
    }

    method IsFull() returns (full: bool)
      requires Valid()
      ensures full <==> |Waiting()| == maxSize
    {
      full := size >= maxSize;
    }

    method IsEmpty() returns (empty: bool)
      requires Valid()
      ensures empty <==> Waiting() == []
    {
      empty := 0 == size;
    }

    method Size() returns (n: u32)
      requires Valid()
      ensures n == |Waiting()| && n <= maxSize
    {
      n := size;
    }

    /** What happens to a record that is no slot leaves the slots alone. */
    twostate lemma OutsideChange(ac: AnalContent)
      requires old(SlotsHold()) && ac !in cells && heap.Sound() && old(heap.records) - {ac} <= heap.records
      requires forall i :: 0 <= i < |cells| ==> unchanged(cells[i])
      requires forall b :: b in old(heap.live) && b.owner != ac ==> unchanged(b)
      requires slots == old(slots)
      ensures SlotsHold()
    {
      forall i | 0 <= i < |cells| ensures cells[i] in heap.records && cells[i].Value() == slots[i] {
        assert old(cells[i].Value()) == old(slots[i]);
        assert old(cells[i].Valid());
      }
    }

    /** A change of one slot leaves what the others hold. */
    twostate lemma OneSlotChanged(k: nat)
      requires old(SlotsHold()) && k < |cells| && heap.Sound() && heap.records == old(heap.records)
      requires forall i :: 0 <= i < |cells| && i != k ==> unchanged(cells[i])
      requires forall b :: b in old(heap.live) ==> unchanged(b)
      requires slots == old(slots)[k := cells[k].Value()]
      ensures SlotsHold()
    {
      forall i | 0 <= i < |cells| && i != k ensures cells[i].Value() == slots[i] {
        assert old(cells[i].Value()) == old(slots[i]);
        assert old(cells[i].Valid());
      }
    }

    /** `cells[k] = ac`. */
    method Store(k: nat, ac: AnalContent)
      requires SlotsHold() && k < |cells| && ac in heap.records && ac !in cells
      modifies this`slots, cells[k], heap`live
      ensures SlotsHold() && slots == old(slots)[k := old(ac.Value())] && ac.Value() == old(ac.Value())
    {
      assert ac.Valid() && cells[k].heap == heap && cells[k] != ac;
      cells[k].Assign(ac);
      slots := slots[k := ac.Value()];
      OneSlotChanged(k);
    }

    /** `cells[k].acInit()`. */
    method Wipe(k: nat)
      requires SlotsHold() && k < |cells|
      modifies this`slots, cells[k], heap`live
      ensures SlotsHold() && slots == old(slots)[k := Packet([], [], Wiped(old(slots[k]).fields))]
    {
      cells[k].AcInit();
      slots := slots[k := Packet([], [], Wiped(slots[k].fields))];
      OneSlotChanged(k);
    }

    /** `ac = cells[k]`. */
    method Fetch(k: nat, ac: AnalContent)
      requires SlotsHold() && k < |cells| && ac in heap.records && ac !in cells
      modifies ac, heap`live
      ensures SlotsHold() && ac.Value() == slots[k]
    {
      ac.Assign(cells[k]);
    }

    /** `ac = m_array[k]`, then `m_array[k].acInit()`. */
    method TakeOut(k: nat, ac: AnalContent)
      requires SlotsHold() && k < |cells| && ac in heap.records && ac !in cells
      modifies this`slots, ac, cells[k], heap`live
      ensures SlotsHold() && ac.Value() == old(slots[k])
      ensures slots == old(slots)[k := Packet([], [], Wiped(old(slots[k]).fields))]
    {
      RecordIsValid(ac);
      hide SlotsHold;
      Fetch(k, ac);
      Wipe(k);
    }

    lemma RecordIsValid(ac: AnalContent)
      requires SlotsHold() && ac in heap.records
      ensures ac.heap == heap
    {}

    /** A copy of `ac` joins the ring unless it is full; `ac` itself is left alone. */
    method Push(ac: AnalContent) returns (ok: bool)
      requires Valid() && ac in heap.records && ac !in cells
      modifies this, cells, heap`live
      ensures Valid() && ok == (|old(Waiting())| < maxSize) && ac.Value() == old(ac.Value())
      ensures Waiting() == if ok then old(Waiting()) + [old(ac.Value())] else old(Waiting())
    {
      hide SlotsHold, Contents;
      AsManyAsSize(slots, View());
      assert 0 < maxSize;
      hide Ok;
      if size >= maxSize { return false; }
      PushAppends(slots, View(), ac.Value());
      back := (back + 1) % WRAP % maxSize;
      Store(back, ac);
      size := size + 1;
      return true;
    }

    /** The oldest packet moves into `ac`, which frees what it held; the ring's own copy is freed. */
    method Pop(ac: AnalContent, waitFails: bool) returns (answer: Answer<()>)
      requires Valid() && ac in heap.records && ac !in cells
      modifies this, ac, cells, heap`live
      ensures Valid()
      ensures if old(Waiting()) != [] then answer == Got(()) && [ac.Value()] + Waiting() == old(Waiting())
              else Waiting() == old(Waiting()) && ac.Value() == old(ac.Value())
                   && answer == if waitFails then Failed else Sleeps
      ensures answer.Got? ==> 0 <= front < |slots| && slots[front] == Packet([], [], Wiped(ac.fields))
    {
      hide SlotsHold;
      if size <= 0 { return if waitFails then Failed else Sleeps; }
      var k := Popped(View()).front;
      PopTakesTheOldest(slots, View(), Packet([], [], Wiped(slots[k].fields)));
      front := (front + 1) % WRAP % maxSize;
      TakeOut(front, ac);
      size := size - 1;
      return Got(());
    }
  }
}

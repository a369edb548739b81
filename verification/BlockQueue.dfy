/** The monitor ring with signed indices. Each method is one critical section of the source's
    operation; a sleeping pop is a pop that has to be called again. */
module BlockQueue {
  import opened MonitorRing

  class BlockQueue<T(0)> {
    const cells: array<T>
    const maxSize: int
    var size: int
    var front: int
    var back: int

    ghost function View(): Cursor
      reads this
    {
      Cursor(Signed, maxSize, size, front, back)
    }

    ghost predicate Valid()
      reads this
    {
      Ok(View()) && cells.Length == maxSize
    }

    ghost function Waiting(): seq<T>
      reads this, cells
      requires Valid()
    {
      Contents(cells[..], View())
    }

    constructor (maxSize: int)
      requires 0 < maxSize < 0x8000_0000
      ensures Valid() && fresh(cells) && this.maxSize == maxSize && Waiting() == [] && front == back == -1
    {
      this.maxSize := maxSize;
      cells := new T[maxSize];
      size, front, back := 0, -1, -1;
      new;
      FreshIsOk(Signed, maxSize);
    }

    method Clear()
      requires Valid()
      modifies this
      ensures Valid() && Waiting() == [] && front == back == -1
    {
      size, front, back := 0, -1, -1;
      FreshIsOk(Signed, maxSize);
    }

    method Full() returns (full: bool)
      requires Valid()
      ensures full <==> |Waiting()| == maxSize
    {
      full := size >= maxSize;
    }

    method Empty() returns (empty: bool)
      requires Valid()
      ensures empty <==> Waiting() == []
    {
      empty := 0 == size;
    }

    method Size() returns (n: int)
      requires Valid()
      ensures n == |Waiting()| && 0 <= n <= maxSize
    {
      n := size;
    }

    /** The element pushed last, when any waits. */
    method Back(value: T) returns (ok: bool, newest: T)
      requires Valid()
      ensures if Waiting() == [] then !ok && newest == value else ok && newest == Waiting()[|Waiting()| - 1]
    {
      if 0 == size { return false, value; }
      BackIsTheNewest(cells[..], View());
      return true, cells[back];
    }

    method Push(item: T) returns (ok: bool)
      requires Valid()
      modifies this, cells
      ensures Valid() && ok == (|old(Waiting())| < maxSize)
      ensures Waiting() == if ok then old(Waiting()) + [item] else old(Waiting())
    {
      if size >= maxSize { return false; }
      PushAppends(cells[..], View(), item);
      back := (back + 1) % maxSize;
      cells[back] := item;
      size := size + 1;
      return true;
    }

    /** Answers whether an element was taken; none is taken when the wait failed, or when the
        thread goes to sleep. */
    method Pop(waitFails: bool) returns (answer: Answer<T>)
      requires Valid()
      modifies this
      ensures Valid()
      ensures if old(Waiting()) != [] then answer.Got? && [answer.x] + Waiting() == old(Waiting())
              else Waiting() == old(Waiting()) && answer == if waitFails then Failed else Sleeps
    {
      if size <= 0 {
        return if waitFails then Failed else Sleeps;
      }
      PopTakesTheOldest(cells[..], View(), cells[Popped(View()).front]);
      front := (front + 1) % maxSize;
      answer := Got(cells[front]);
      size := size - 1;
    }
  }
}

/**
 The ring of `ringbuffer.h` as its callers use it when nothing runs in between: an object
 whose `Push` and `Pop` update a slot array and two indices in place.
 `Spsc` shows that the interleaved accesses of two threads behave like these atomic calls.
 */
module RingBuffers {
  import Spsc

  class RingBuffer<T(0)> {
    const ring: array<T>
    var head: nat
    var tail: nat
    ghost var items: seq<T>  // oldest first

    ghost predicate Valid()
      reads this, ring
    {
      && head < ring.Length && tail < ring.Length
      && items == Spsc.Segment(ring[..], tail, head)
    }

    constructor (size: nat)
      requires size > 0
      ensures Valid() && fresh(ring) && ring.Length == size
      ensures items == []
    {
      ring := new T[size];
      head, tail := 0, 0;
      items := [];
    }

    /** Appends `value`, or reports a full ring and changes nothing. */
    method Push(value: T) returns (ok: bool)
      requires Valid()
      modifies this`head, this`items, ring
      ensures Valid()
      ensures ok <==> |old(items)| < ring.Length - 1
      ensures items == if ok then old(items) + [value] else old(items)
    {
      var nextHead := Spsc.Next(head, ring.Length);
      if nextHead == tail {
        Spsc.SegmentFull(ring[..], tail, head);
        return false;
      }
      ghost var was := ring[..];
      Spsc.SegmentGrows(was, tail, head, value);
      ring[head] := value;
      assert ring[..] == was[head := value];
      head := nextHead;
      items := items + [value];
      ok := true;
    }

    /** Removes the oldest value, or reports an empty ring and leaves `current` in place. */
    method Pop(current: T) returns (ok: bool, value: T)
      requires Valid()
      modifies this`tail, this`items
      ensures Valid()
      ensures ok <==> old(items) != []
      ensures if ok then [value] + items == old(items) else value == current && items == old(items)
    {
      if tail == head {
        return false, current;
      }
      Spsc.SegmentShrinks(ring[..], tail, head);
      value := ring[tail];
      tail := Spsc.Next(tail, ring.Length);
      items := items[1..];
      ok := true;
    }
  }
}

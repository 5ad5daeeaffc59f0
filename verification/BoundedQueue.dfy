/**
  The fixed-capacity circular queue under the blocking queue. Its contents are
  the `size` slots that follow `head` around the ring.
 */
module BoundedQueue {

  /** Slot `i` of a ring of `n`, for at most one turn around it. */
  function Wrap(i: nat, n: nat): nat { if i < n then i else i - n }

  lemma WrapIsMod(i: nat, n: nat)
    requires 0 < n && i < 2 * n
    ensures i % n == Wrap(i, n)
  {
    if i >= n {
      assert i % n == (i - n) % n;
    }
  }

  /** The `size` slots from `head` on, around the ring. */
  function Ring<T>(slots: seq<T>, head: nat, size: nat): (s: seq<T>)
    requires head < |slots| && size <= |slots|
    ensures |s| == size && forall i :: 0 <= i < size ==> s[i] == slots[Wrap(head + i, |slots|)]
  {
    seq(size, i requires 0 <= i < size => slots[Wrap(head + i, |slots|)])
  }

  class BoundedQueue<T(0)> {
    const capacity: nat
    const buffer: array<T>
    var head: nat
    var tail: nat
    var size: nat

    ghost predicate Valid()
      reads this
    {
      && 0 < capacity == buffer.Length
      && head < capacity && size <= capacity && tail == Wrap(head + size, capacity)
    }

    ghost function Contents(): (s: seq<T>)
      requires Valid()
      reads this, buffer
      ensures |s| == size
    {
      Ring(buffer[..], head, size)
    }

    constructor (capacity: nat)
      requires capacity > 0
      ensures Valid() && fresh(buffer) && this.capacity == capacity && Contents() == []
    {
      this.capacity := capacity;
      buffer := new T[capacity];
      head, tail, size := 0, 0, 0;
    }

    method Clear()
      requires Valid()
      modifies this
      ensures Valid() && Contents() == []
    {
      head, tail, size := 0, 0, 0;
    }

    predicate Empty()
      requires Valid()
      reads this, buffer
      ensures Empty() <==> Contents() == []
    {
      size == 0
    }

    predicate Full()
      requires Valid()
      reads this, buffer
      ensures Full() <==> |Contents()| == capacity
    {
      capacity == size
    }

    method Push(t: T)
      requires Valid() && !Full()
      modifies this, buffer
      ensures Valid() && Contents() == old(Contents()) + [t]
    {
      WrapIsMod(tail + 1, capacity);
      buffer[tail] := t;
      tail := (tail + 1) % capacity;
      size := size + 1;
    }

    method Pop() returns (t: T)
      requires Valid() && !Empty()
      modifies this
      ensures Valid() && [t] + Contents() == old(Contents())
    {
      WrapIsMod(head + 1, capacity);
      var oldPos := head;
      head := (head + 1) % capacity;
      size := size - 1;
      t := buffer[oldPos];
    }
  }
}

/**
  The small-buffer vector: sixteen elements are stored inline, more in a block
  from the heap. It behaves as a sequence and neither leaks nor frees twice.
 */
module LocalVectors {

  /** The blocks that were allocated and not yet freed. */
  class Heap<T(0)> {
    ghost var live: set<array<T>>

    constructor ()
      ensures live == {}
    {
      live := {};
    }

    method Malloc(n: nat) returns (block: array<T>)
      modifies this
      ensures fresh(block) && block.Length == n && live == old(live) + {block}
    {
      block := new T[n];
      live := live + {block};
    }

    method Free(block: array<T>)
      requires block in live
      modifies this
      ensures live == old(live) - {block}
    {
      live := live - {block};
    }
  }

  /** Copies the first `n` elements; the two blocks may be the same one. */
  method Memcpy<T>(dst: array<T>, src: array<T>, n: nat)
    requires n <= dst.Length && n <= src.Length
    modifies dst
    ensures dst[..n] == old(src[..n])
  {
    for i := 0 to n
      invariant dst[..i] == old(src[..i])
      invariant src[i..] == old(src[i..])
    {
      dst[i] := src[i];
    }
  }

  class LocalVector<T(0)> {
    const heap: Heap<T>
    const buffer: array<T>
    var ptr: array<T>
    var size: nat
    var capacity: nat

    /** Storage is inline exactly when the capacity is 16; otherwise it is a live block. */
    ghost predicate Valid()
      reads this, heap
    {
      && buffer.Length == 16 && ptr.Length == capacity && size <= capacity && 16 <= capacity
      && (ptr == buffer <==> capacity == 16)
      && buffer !in heap.live && (ptr != buffer ==> ptr in heap.live)
    }

    ghost function Contents(): seq<T>
      requires Valid()
      reads this, heap, ptr
    {
      ptr[..size]
    }

    /** The block this vector has to free. */
    ghost function Owned(): set<array<T>>
      reads this
    {
      if ptr == buffer then {} else {ptr}
    }

    ghost predicate Apart(vec: LocalVector<T>)
      reads this, vec
    {
      this != vec && heap == vec.heap && {buffer} + Owned() !! {vec.buffer} + vec.Owned()
    }

    constructor (heap: Heap<T>)
      ensures Valid() && Contents() == [] && this.heap == heap && fresh(buffer) && Owned() == {}
    {
      this.heap := heap;
      var inline := new T[16];
      buffer, ptr, size, capacity := inline, inline, 0, 16;
    }

    constructor Copy(vec: LocalVector<T>)
      requires vec.Valid()
      modifies vec.heap
      ensures Valid() && Contents() == old(vec.Contents()) && heap == vec.heap && fresh(buffer) && fresh(Owned())
      ensures heap.live == old(vec.heap.live) + Owned()
      ensures vec.Valid() && vec.Contents() == old(vec.Contents()) && Apart(vec)
    {
      heap := vec.heap;
      var inline := new T[16];
      buffer, ptr, size, capacity := inline, inline, 0, 16;
      new;
      Assign(vec);
    }

    constructor Fill(heap: Heap<T>, n: nat, t: T)
      modifies heap
      ensures Valid() && this.heap == heap && fresh(buffer) && fresh(Owned())
      ensures Contents() == seq(n, _ => t)
      ensures heap.live == old(heap.live) + Owned()
    {
      this.heap := heap;
      var inline := new T[16];
      buffer, ptr, size, capacity := inline, inline, 0, 16;
      new;
      for i := 0 to n
        invariant Valid() && fresh(buffer) && fresh(Owned())
        invariant Contents() == seq(i, _ => t)
        invariant heap.live == old(heap.live) + Owned()
        modifies this, buffer, ptr, heap
      {
        PushBack(t);
      }
    }

    /** Frees the block, if there is one. */
    method Destroy()
      requires Valid()
      modifies heap
      ensures heap.live == old(heap.live) - Owned()
    {
      if ptr != buffer {
        heap.Free(ptr);
      }
    }

    method Clear()
      requires Valid()
      modifies this, heap
      ensures Valid() && Contents() == [] && Owned() == {}
      ensures heap.live == old(heap.live - Owned())
    {
      if ptr != buffer {
        heap.Free(ptr);
      }
      ptr, size, capacity := buffer, 0, 16;
    }

    /** Assigning another vector copies it; assigning a vector to itself empties it. */
    method Assign(vec: LocalVector<T>)
      requires Valid() && vec.Valid() && (vec == this || Apart(vec))
      modifies this, buffer, heap
      ensures Valid() && Contents() == if vec == this then [] else old(vec.Contents())
      ensures heap.live == old(heap.live - Owned()) + Owned() && (ptr == buffer || fresh(ptr))
      ensures vec != this ==> vec.Valid() && vec.Contents() == old(vec.Contents()) && Apart(vec)
    {
      Clear();
      size, capacity := vec.size, vec.capacity;
      if vec.buffer == vec.ptr {
        Memcpy(buffer, vec.buffer, size);
        ptr := buffer;
      } else {
        ptr := heap.Malloc(vec.capacity);
        Memcpy(ptr, vec.ptr, vec.size);
      }
    }

    method Get(i: nat) returns (t: T)
      requires Valid() && i < size
      ensures t == Contents()[i]
    {
      t := ptr[i];
    }

    method Set(i: nat, t: T)
      requires Valid() && i < size
      modifies ptr
      ensures Valid() && Contents() == old(Contents())[i := t]
    {
      ptr[i] := t;
    }

    method PushBack(t: T)
      requires Valid()
      modifies this, ptr, heap
      ensures Valid() && Contents() == old(Contents()) + [t]
      ensures heap.live == old(heap.live - Owned()) + Owned() && (ptr == old(ptr) || fresh(ptr))
      ensures capacity == if old(size) == old(capacity) then 2 * old(capacity) else old(capacity)
    {
      if size == capacity {
        Reserve(capacity * 2);
      }
      ptr[size] := t;
      size := size + 1;
    }

    /** Grows the storage; the contents stay. */
    method Reserve(n: nat)
      requires Valid()
      modifies this, heap
      ensures Valid() && Contents() == old(Contents()) && size == old(size)
      ensures capacity == if n <= old(capacity) then old(capacity) else n
      ensures heap.live == old(heap.live - Owned()) + Owned()
      ensures if n <= old(capacity) then ptr == old(ptr) else fresh(ptr)
    {
      if n <= capacity {
        return;
      }
      var next := heap.Malloc(n);
      var was := ptr;
      ptr := next;
      Memcpy(ptr, was, capacity);
      assert ptr[..size] == ptr[..capacity][..size] == old(ptr[..capacity])[..size];
      capacity := n;
      if was != buffer {
        heap.Free(was);
      }
    }
  }
}

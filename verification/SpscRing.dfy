/** The ring of include/hotpath/spsc_ring.hpp, as one thread at a time sees it. */
module SpscRing {
  import opened RingIndex
  import opened Bytes

  class Ring<T(0)> {
    const slots: array<T>
    const mask: nat
    // Wrapping 64-bit counters, and what each side last saw of the other's.
    var head: nat
    var tail: nat
    var tailCache: nat
    var headCache: nat
    // The same four, never wrapped, and the rows between them.
    ghost var pushed: nat
    ghost var popped: nat
    ghost var cachedTail: nat
    ghost var cachedHead: nat
    ghost var contents: seq<T>

    ghost predicate Valid()
      reads this, slots
    {
      && IsCapacity(slots.Length) && slots.Length >= 2 && mask == slots.Length - 1
      && head == Wrap(pushed) && tail == Wrap(popped)
      && tailCache == Wrap(cachedTail) && headCache == Wrap(cachedHead)
      && cachedTail <= popped <= cachedHead <= pushed <= cachedTail + slots.Length
      && |contents| == pushed - popped
      && forall i :: popped <= i < pushed ==> slots[Slot(i, slots.Length)] == contents[i - popped]
    }

    /** `std::bit_ceil` is defined up to the largest power of two. */
    constructor (capacity: nat)
      requires capacity <= Pow2(63)
      ensures Valid() && fresh(slots) && contents == []
      ensures slots.Length >= 2 && slots.Length >= capacity
      ensures forall d: nat :: IsCapacity(d) && d >= capacity ==> slots.Length <= d
    {
      hide BitCeil, Pow2, IsCapacity;
      var count := BitCeil(if capacity < 2 then 2 else capacity);
      CapacityOf(capacity);
      slots := new T[count];
      mask := count - 1;
      head, tail, tailCache, headCache := 0, 0, 0, 0;
      pushed, popped, cachedTail, cachedHead, contents := 0, 0, 0, 0, [];
    }

    /** `try_push`: refused exactly when every slot holds a row. */
    method TryPush(value: T) returns (ok: bool)
      requires Valid()
      modifies this, slots
      ensures Valid() && ok == (|old(contents)| < slots.Length)
      ensures contents == if ok then old(contents) + [value] else old(contents)
    {
      hide Slot, BitAnd, IsCapacity, Wrap, WrapSub;
      var m := CapacityDivides(slots.Length);
      WrappedDifference(pushed, cachedTail);
      WrappedDifference(pushed, popped);
      if WrapSub(head, tailCache) >= slots.Length {
        tailCache, cachedTail := tail, popped;
        if WrapSub(head, tailCache) >= slots.Length {
          return false;
        }
      }
      MaskedSlot(pushed, slots.Length);
      forall i | popped <= i < pushed
        ensures Slot(i, slots.Length) != Slot(pushed, slots.Length)
      {
        SlotsDiffer(i, pushed, slots.Length);
      }
      slots[BitAnd(head, mask)] := value;
      WrappedSuccessor(pushed);
      head, pushed, contents := Wrap(head + 1), pushed + 1, contents + [value];
      ok := true;
    }

    /** `try_pop`: refused exactly when no row is left; otherwise the oldest row. */
    method TryPop() returns (out: Option<T>)
      requires Valid()
      modifies this
      ensures Valid() && out.Some? == (old(contents) != [])
      ensures old(contents) == if out.Some? then [out.value] + contents else contents
    {
      hide Slot, BitAnd, IsCapacity, Wrap;
      var m := CapacityDivides(slots.Length);
      WrappedEqual(popped, cachedHead);
      WrappedEqual(popped, pushed);
      if tail == headCache {
        headCache, cachedHead := head, pushed;
        if tail == headCache {
          return None;
        }
      }
      MaskedSlot(popped, slots.Length);
      out := Some(slots[BitAnd(tail, mask)]);
      WrappedSuccessor(popped);
      tail, popped, contents := Wrap(tail + 1), popped + 1, contents[1..];
    }

    /** `size`. */
    method Size() returns (n: nat)
      requires Valid()
      ensures n == |contents| <= slots.Length
    {
      hide Wrap, WrapSub;
      var m := CapacityDivides(slots.Length);
      WrappedDifference(pushed, popped);
      n := WrapSub(head, tail);
    }
  }
}

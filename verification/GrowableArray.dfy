/** The growable array of freezer/module/array.c, and how its 32-bit capacity grows. */
module GrowableArray {
  import opened CTypes

  const DEFAULT_CAPACITY: uint32 := 10

  /** The number of elements at which doubling the default capacity first wraps. */
  const DEFAULT_LIMIT: uint32 := 2_684_354_560

  /** `capacity *= 2` on an `unsigned int`. */
  function Doubled(capacity: uint32): uint32 {
    capacity * 2 % TWO_TO_THE_32
  }

  /** Whether the write of a push into an array of `size` elements is inside the block
      that the push leaves behind. */
  predicate PushFits(size: uint32, capacity: uint32) {
    size < if size == capacity then Doubled(capacity) else capacity
  }

  /** The exact guard: a push is in bounds unless the array is full and either
      was created with capacity 0 or has reached 2^31. */
  lemma PushFitsExactly(size: uint32, capacity: uint32)
    requires size <= capacity
    ensures PushFits(size, capacity) <==> size < capacity || 0 < capacity < 0x8000_0000
  {
  }

  /** The capacity of an array created with capacity `c` after `n` pushes. */
  ghost function CapacityAfter(c: uint32, n: nat): uint32 {
    if n == 0 then c
    else
      var before := CapacityAfter(c, n - 1);
      if before == n - 1 then Doubled(before) else before
  }

  /** How many elements those pushes carried over from an old block to a new one. */
  ghost function CarriedAfter(c: uint32, n: nat): nat {
    if n == 0 then 0
    else CarriedAfter(c, n - 1) + if CapacityAfter(c, n - 1) == n - 1 then n - 1 else 0
  }

  /** `c` doubled `k` times: c * 2^k. */
  function DoubledTimes(c: nat, k: nat): (p: nat) {
    if k == 0 then c else 2 * DoubledTimes(c, k - 1)
  }

  lemma {:induction false} DoubledTimesMonotone(c: nat, j: nat, k: nat)
    requires j <= k
    ensures DoubledTimes(c, j) <= DoubledTimes(c, k)
    decreases k - j
  {
    if j < k {
      DoubledTimesMonotone(c, j, k - 1);
    }
  }

  /** Below a top of `c` doubled `top` times there is room for one more doubling. */
  lemma RoomToDouble(c: nat, k: nat, top: nat)
    requires DoubledTimes(c, k) < DoubledTimes(c, top)
    ensures 2 * DoubledTimes(c, k) == DoubledTimes(c, k + 1) <= DoubledTimes(c, top)
  {
    if k < top {
      DoubledTimesMonotone(c, k + 1, top);
    } else {
      DoubledTimesMonotone(c, top, k);
    }
  }

  /** Until doubling wraps: the capacity is `c` times a power of two and never below
      the number of elements, and the reallocations together carried over exactly
      capacity - c elements, which is at most 2n. */
  lemma {:induction false} AmortisedGrowth(c: uint32, n: nat, top: nat) returns (k: nat)
    requires 0 < c && n <= DoubledTimes(c, top) < TWO_TO_THE_32
    ensures CapacityAfter(c, n) == DoubledTimes(c, k)
    ensures n <= DoubledTimes(c, k) <= DoubledTimes(c, top)
    ensures CarriedAfter(c, n) == CapacityAfter(c, n) - c <= 2 * n
  {
    if n == 0 {
      k := 0;
      DoubledTimesMonotone(c, 0, top);
    } else {
      k := AmortisedGrowth(c, n - 1, top);
      if DoubledTimes(c, k) == n - 1 {
        RoomToDouble(c, k, top);
        k := k + 1;
      }
    }
  }

  /** After exactly c * 2^k pushes the array is full at capacity c * 2^k. */
  lemma FullAtPowers(c: uint32, k: nat)
    requires 0 < c && DoubledTimes(c, k) < TWO_TO_THE_32
    ensures CapacityAfter(c, DoubledTimes(c, k)) == DoubledTimes(c, k)
  {
    var j := AmortisedGrowth(c, DoubledTimes(c, k), k);
  }

  /** From the default capacity, the 32-bit capacity serves exactly the first
      2,684,354,560 pushes: the next one would double past 2^32, shrink the block and
      write behind its end. */
  lemma DefaultCapacityLimit(n: nat)
    requires n <= DEFAULT_LIMIT
    ensures n <= CapacityAfter(DEFAULT_CAPACITY, n)
    ensures PushFits(n, CapacityAfter(DEFAULT_CAPACITY, n)) <==> n < DEFAULT_LIMIT
  {
    assert DoubledTimes(10, 8) == 2_560;
    assert DoubledTimes(10, 16) == 655_360;
    assert DoubledTimes(10, 24) == 167_772_160;
    assert DoubledTimes(10, 28) == DEFAULT_LIMIT;
    var k := AmortisedGrowth(DEFAULT_CAPACITY, n, 28);
    FullAtPowers(DEFAULT_CAPACITY, 28);
    var capacity := CapacityAfter(DEFAULT_CAPACITY, n);
    PushFitsExactly(n, capacity);
    if n == capacity && n < DEFAULT_LIMIT {
      RoomToDouble(DEFAULT_CAPACITY, k, 28);
    }
  }

  /** `krealloc`: a new block holding the elements of the old one, as far as they fit. */
  method Realloc(source: array<CString?>, length: nat) returns (block: array<CString?>)
    ensures fresh(block) && block.Length == length
    ensures forall i | 0 <= i < length && i < source.Length :: block[i] == source[i]
  {
    block := new CString?[length](_ => null);
    var i := 0;
    while i < length && i < source.Length
      invariant 0 <= i <= length && i <= source.Length
      invariant forall j | 0 <= j < i :: block[j] == source[j]
    {
      block[i] := source[i];
      i := i + 1;
    }
  }

  class Array {
    var data: array<CString?>
    var size: uint32
    var capacity: uint32
    ghost const initial: uint32
    ghost var carried: nat

    ghost predicate Valid()
      reads this, data
    {
      && size <= capacity == data.Length
      && (forall i | 0 <= i < size :: data[i] != null)
      && capacity == CapacityAfter(initial, size)
      && carried == CarriedAfter(initial, size)
    }

    ghost function Contents(): seq<CString>
      reads this, data
      requires Valid()
    {
      data[..size]
    }

    constructor WithCapacity(capacity: uint32)
      ensures Valid() && fresh(data) && Contents() == []
      ensures initial == capacity == data.Length
    {
      this.data := new CString?[capacity](_ => null);
      this.size := 0;
      this.capacity := capacity;
      initial := capacity;
      carried := 0;
    }

    method Push(element: CString)
      requires Valid() && PushFits(size, capacity)
      modifies this, data
      ensures Valid() && Contents() == old(Contents()) + [element]
      ensures data == old(data) || fresh(data)
      ensures data.Length == if old(size) == old(capacity) then old(capacity) * 2 % 0x1_0000_0000 else old(capacity)
    {
      if size == capacity {
        PushFitsExactly(size, capacity);
        capacity := Doubled(capacity);
        var block := Realloc(data, capacity);
        data := block;
        carried := carried + size;
      }

      data[size] := element;
      size := size + 1;
    }

    /** The pointers handed to `kfree`, in order: every element, the block, the record. */
    method Destroy() returns (freed: seq<object>)
      requires Valid()
      ensures freed == Contents() + [data, this]
    {
      freed := [];
      var i := 0;
      while i < size
        invariant 0 <= i <= size
        invariant freed == Contents()[..i]
      {
        freed := freed + [data[i]];
        i := i + 1;
      }
      freed := freed + [data];
      freed := freed + [this];
    }
  }
}

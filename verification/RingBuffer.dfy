/** The ring buffer object: wrapping size_t counters over a power-of-two array of raw slots. */
module RingBuffers {
  import opened Bytes
  import opened Bitfield
  import opened Options
  import opened PowerOfTwo

  // ---------------------------------------------------------------------------------------
  // Counters

  /** The slot of the p-th element ever pushed. */
  function SlotFor(p: nat, capacity: nat): (slot: nat)
    requires capacity > 0
    ensures slot < capacity
  {
    p % capacity
  }

  /** The slot a loop reaches for its i-th element: up to the end of the array, then from the start. */
  function LoopSlot(offset: nat, i: nat, count: nat, capacity: nat): int {
    var slice := Min(count, capacity - offset);
    if i < slice then offset + i else i - slice
  }

  function Min(a: int, b: int): int {
    if a < b then a else b
  }

  /** Subtraction of counters modulo 2^w. */
  function Difference(a: nat, b: nat, w: nat): nat {
    (a - b) % Pow2(w)
  }

  lemma SlotsApart(p: nat, q: nat, capacity: nat)
    requires p < q < p + capacity
    ensures SlotFor(p, capacity) != SlotFor(q, capacity)
  {
    if p % capacity == q % capacity {
      var d := q / capacity - p / capacity;
      assert q - p == capacity * d;
      MultipleApart(capacity, d);
    }
  }

  /** Within one lap no two elements share a slot. */
  lemma LapApart(lo: nat, q: nat, capacity: nat)
    requires lo <= q < lo + capacity
    ensures forall p: nat | lo <= p < lo + capacity && p != q ::
              SlotFor(p, capacity) != SlotFor(q, capacity)
  {
    forall p: nat | lo <= p < lo + capacity && p != q
      ensures SlotFor(p, capacity) != SlotFor(q, capacity)
    {
      SlotsApart(if p < q then p else q, if p < q then q else p, capacity);
    }
  }

  lemma Distributes(m: int, a: int, b: int)
    ensures m * (a + b) == m * a + m * b
  {
  }

  lemma DivMod(n: nat, m: nat)
    requires m > 0
    ensures n == m * (n / m) + n % m
  {
  }

  lemma ModOfSum(m: nat, a: nat, b: nat, r: nat)
    requires r < m
    ensures (m * a + m * b + r) % m == r
  {
    Distributes(m, a, b);
    ModUnique(m * (a + b) + r, m, a + b, r);
  }

  lemma ModNested(n: nat, c: nat, m: nat)
    requires c > 0 && m > 0 && c * m > 0
    ensures n % (c * m) % c == n % c
  {
    DivMod(n, c * m);
    Associates(c, m, n / (c * m));
    RestOnly(c, m * (n / (c * m)), n % (c * m));
  }

  lemma RestOnly(c: nat, a: nat, r: nat)
    requires c > 0
    ensures (c * a + r) % c == r % c
  {
    DivMod(r, c);
    ModOfSum(c, a, r / c, r % c);
  }

  lemma Associates(c: int, m: int, q: int)
    ensures (c * m) * q == c * (m * q)
  {
  }

  /** The counter's wrap-around does not disturb the slots: the capacity divides the modulus. */
  lemma CounterSlot(n: nat, k: nat, w: nat)
    requires k <= w
    ensures AndBits(n % Pow2(w), Pow2(k) - 1, w) == SlotFor(n, Pow2(k))
  {
    hide Pow2, AndBits;
    MaskIsRemainder(n % Pow2(w), k, w);
    Pow2Splits(k, w - k);
    ModNested(n, Pow2(k), Pow2(w - k));
  }

  lemma LoopSlotIs(n: nat, i: nat, count: nat, capacity: nat)
    requires i < count <= capacity
    ensures LoopSlot(SlotFor(n, capacity), i, count, capacity) == SlotFor(n + i, capacity)
  {
    var q, r := n / capacity, n % capacity;
    assert n == capacity * q + r;
    if r + i < capacity {
      ModUnique(n + i, capacity, q, r + i);
    } else {
      assert n + i == capacity * (q + 1) + (r + i - capacity);
      ModUnique(n + i, capacity, q + 1, r + i - capacity);
    }
  }

  /** The difference of the wrapped counters is the difference of the true ones. */
  lemma CountersApart(written: nat, read: nat, w: nat)
    requires read <= written < read + Pow2(w)
    ensures Difference(written % Pow2(w), read % Pow2(w), w) == written - read
  {
    hide Pow2;
    var m := Pow2(w);
    DivMod(written, m);
    DivMod(read, m);
    Distributes(m, read / m, written / m - read / m);
    ModShift(written % m - read % m, written - read, m, read / m - written / m);
  }

  lemma ModShift(d: int, r: nat, m: nat, q: int)
    requires m > 0 && r < m && d == r + m * q
    ensures d % m == r
  {
    var e := d / m - q;
    assert d == m * (d / m) + d % m;
    Distributes(m, q, e);
    MultipleApart(m, e);
  }

  lemma Advanced(n: nat, count: nat, w: nat)
    ensures (n % Pow2(w) + count) % Pow2(w) == (n + count) % Pow2(w)
  {
    hide Pow2;
    AdvancedBy(n, count, Pow2(w));
  }

  lemma AdvancedBy(n: nat, count: nat, m: nat)
    requires m > 0
    ensures (n % m + count) % m == (n + count) % m
  {
    var x := n % m + count;
    DivMod(n, m);
    DivMod(x, m);
    ModOfSum(m, n / m, x / m, x % m);
  }

  // ---------------------------------------------------------------------------------------

  lemma PowZero()
    ensures Pow2(0) == 1
  {
  }

  lemma TwoIsLeast(w: nat)
    requires w > 1
    ensures IsLeastPower(2, 2, w)
  {
    assert Pow2(1) == 2 && Pow2(0) == 1;
  }

  /** The first n elements of a generator. */
  function Made<T>(make: nat -> T, n: nat): (s: seq<T>)
    ensures |s| == n && forall i | 0 <= i < n :: s[i] == make(i)
  {
    if n == 0 then [] else Made(make, n - 1) + [make(n - 1)]
  }

  lemma CapacityIs(capacity: nat, size: nat, w: nat)
    requires w > 2 && size < Pow2(w)
    requires size <= 2 || size <= Pow2(w - 1) ==> IsLeastPower(capacity, if size <= 2 then 2 else size, w)
    requires size > 2 && size > Pow2(w - 1) ==> capacity == 0
    ensures size > Pow2(w - 1) ==> capacity == 0
    ensures capacity < Pow2(w)
    ensures (capacity + Pow2(w) - 1) % Pow2(w) == if capacity == 0 then Pow2(w) - 1 else capacity - 1
    ensures exists k: nat :: k < w && (size <= Pow2(w - 1) ==> 1 <= k && capacity == Pow2(k))
  {
    hide Pow2;
    PowZero();
    Pow2Step(1);
    Pow2Grows(1, w - 1);
    if size <= Pow2(w - 1) {
      var k: nat :| k < w && capacity == Pow2(k) && 2 <= capacity;
      Pow2Grows(k, w - 1);
      Pow2Step(w);
      ModUnique(capacity + Pow2(w) - 1, Pow2(w), 1, capacity - 1);
    } else {
      ModUnique(Pow2(w) - 1, Pow2(w), 0, Pow2(w) - 1);
      assert 0 < w;
    }
  }

  class RingBuffer<T> {
    const w: nat
    const mask: nat
    /** A slot is raw memory until an element is constructed in it. */
    const storage: array<Option<T>>
    var inCounter: nat
    var outCounter: nat
    ghost const k: nat
    /** How many elements were ever pushed and popped. */
    ghost var written: nat
    ghost var read: nat

    ghost predicate Valid()
      reads this, storage
    {
      && 1 <= k < w && storage.Length == mask + 1 == Pow2(k)
      && inCounter == written % Pow2(w) && outCounter == read % Pow2(w)
      && read <= written <= read + storage.Length
      && (forall p: nat | read <= p < written :: storage[SlotFor(p, storage.Length)].Some?)
      && (forall p: nat | written <= p < read + storage.Length :: storage[SlotFor(p, storage.Length)].None?)
    }

    ghost function Contents(): (s: seq<T>)
      requires Valid()
      reads this, storage
      ensures |s| == written - read
    {
      seq(written - read, (j: int) requires 0 <= j < written - read && Valid() reads this, storage =>
        storage[SlotFor(read + j, storage.Length)].value)
    }

    /**
     * The capacity is the least power of two that is at least the requested size, and at least 2.
     * If the word cannot hold that, the storage is empty under a mask of ones.
     */
    constructor (size: nat, w: nat)
      requires (w == 32 || w == 64) && size < Pow2(w)
      ensures fresh(storage)
      ensures size <= Pow2(w - 1) ==>
                Valid() && Contents() == [] && IsLeastPower(storage.Length, if size <= 2 then 2 else size, w)
      ensures size > Pow2(w - 1) ==> storage.Length == 0 && mask == Pow2(w) - 1
    {
      hide Pow2, IsLeastPower;
      var capacity := 2;
      if size > 2 {
        capacity := RoundUpToNextPowerOf2(size, w);
      } else {
        TwoIsLeast(w);
      }
      CapacityIs(capacity, size, w);
      ghost var exponent: nat :| exponent < w && (size <= Pow2(w - 1) ==> 1 <= exponent && capacity == Pow2(exponent));
      this.w, k := w, exponent;
      mask := (capacity + Pow2(w) - 1) % Pow2(w);
      storage := new Option<T>[capacity](_ => None);
      inCounter, outCounter := 0, 0;
      written, read := 0, 0;
    }

    /** The elements from number lo on are s, and the rest of the lap is raw memory. */
    ghost predicate Holds(lo: nat, s: seq<T>)
      requires storage.Length > 0
      reads storage
    {
      && (forall p: nat | lo <= p < lo + |s| :: storage[SlotFor(p, storage.Length)] == Some(s[p - lo]))
      && (forall p: nat | lo + |s| <= p < lo + storage.Length :: storage[SlotFor(p, storage.Length)] == None)
    }

    lemma HoldsContents(s: seq<T>)
      requires Valid() && |s| == written - read && Holds(read, s)
      ensures Contents() == s
    {
      forall j | 0 <= j < |s| ensures Contents()[j] == s[j] {
        assert storage[SlotFor(read + j, storage.Length)] == Some(s[read + j - read]);
      }
    }

    lemma ContentsHeld()
      requires Valid()
      ensures Holds(read, Contents())
    {
      var s := Contents();
      forall p: nat | read <= p < read + |s|
        ensures storage[SlotFor(p, storage.Length)] == Some(s[p - read])
      {
        assert s[p - read] == storage[SlotFor(read + (p - read), storage.Length)].value;
      }
    }

    /** With the counters in step, the elements held are the contents. */
    lemma Settled(s: seq<T>)
      requires 1 <= k < w && storage.Length == mask + 1 == Pow2(k)
      requires inCounter == written % Pow2(w) && outCounter == read % Pow2(w)
      requires read <= written == read + |s| <= read + storage.Length && Holds(read, s)
      ensures Valid() && Contents() == s
    {
      forall p: nat | read <= p < written ensures storage[SlotFor(p, storage.Length)].Some? {
        assert storage[SlotFor(p, storage.Length)] == Some(s[p - read]);
      }
      HoldsContents(s);
    }

    /** Constructs up to `limit` elements at the tail, as many as fit. */
    method EmplaceBackN(make: nat -> T, limit: nat) returns (count: nat)
      requires Valid()
      modifies this, storage
      ensures Valid() && count == Min(limit, storage.Length - |old(Contents())|)
      ensures Contents() == old(Contents()) + Made(make, count)
      ensures read == old(read)
    {
      hide Holds, Pow2, SlotFor, AndBits;
      ghost var before := Contents();
      ContentsHeld();
      Pow2Grows(k, w - 1);
      Pow2Step(w);
      CountersApart(written, read, w);
      var writable := mask + 1 - Difference(inCounter, outCounter, w);
      count := limit;
      if count > writable {
        count := writable;
      }
      assert before + Made(make, 0) == before;
      if count == 0 {
        return;
      }
      CounterSlot(written, k, w);
      var offset := AndBits(inCounter, mask, w);
      FillSlots(make, offset, count, before);
      Advanced(written, count, w);
      inCounter := (inCounter + count) % Pow2(w);
      written := written + count;
      Settled(before + Made(make, count));
    }

    /** Hands up to `limit` elements from the head to the callback, in order. */
    method PopFrontN(limit: nat) returns (popped: seq<T>)
      requires Valid()
      modifies this, storage
      ensures Valid() && |popped| == Min(limit, |old(Contents())|)
      ensures old(Contents()) == popped + Contents()
      ensures written == old(written)
    {
      hide Holds, Pow2, SlotFor, AndBits;
      ghost var before := Contents();
      ContentsHeld();
      Pow2Grows(k, w - 1);
      Pow2Step(w);
      CountersApart(written, read, w);
      var count := Min(limit, Difference(inCounter, outCounter, w));
      popped := [];
      if count == 0 {
        return;
      }
      CounterSlot(read, k, w);
      var offset := AndBits(outCounter, mask, w);
      popped := DrainSlots(offset, count, before);
      Advanced(read, count, w);
      outCounter := (outCounter + count) % Pow2(w);
      read := read + count;
      Settled(before[count..]);
    }

    /** The two loops of a batch: to the end of the array, and from its start. */
    method FillSlots(make: nat -> T, offset: nat, count: nat, ghost before: seq<T>)
      requires storage.Length == mask + 1 && written == read + |before| && |before| + count <= storage.Length
      requires offset == SlotFor(written, storage.Length) && Holds(read, before)
      modifies storage
      ensures Holds(read, before + Made(make, count))
    {
      hide Holds, SlotFor;
      var slice := Min(count, mask + 1 - offset);
      assert before + Made(make, 0) == before;
      for i := 0 to slice
        modifies storage
        invariant Holds(read, before + Made(make, i))
      {
        LoopSlotIs(written, i, count, storage.Length);
        Construct(offset + i, make(i), read, before + Made(make, i));
        JoinAssociates(before, Made(make, i), [make(i)]);
      }
      for i := 0 to count - slice
        modifies storage
        invariant Holds(read, before + Made(make, slice + i))
      {
        LoopSlotIs(written, slice + i, count, storage.Length);
        Construct(i, make(slice + i), read, before + Made(make, slice + i));
        JoinAssociates(before, Made(make, slice + i), [make(slice + i)]);
      }
    }

    method DrainSlots(offset: nat, count: nat, ghost before: seq<T>) returns (popped: seq<T>)
      requires storage.Length == mask + 1 && count <= |before| <= storage.Length
      requires offset == SlotFor(read, storage.Length) && Holds(read, before)
      modifies storage
      ensures popped == before[..count] && Holds(read + count, before[count..])
    {
      hide Holds, SlotFor;
      var slice := Min(count, mask + 1 - offset);
      popped := [];
      assert before[0..] == before;
      for i := 0 to slice
        modifies storage
        invariant popped == before[..i] && Holds(read + i, before[i..])
      {
        LoopSlotIs(read, i, count, storage.Length);
        DropOne(before, i);
        popped := Take(offset + i, read + i, before[i..], popped);
      }
      for i := 0 to count - slice
        modifies storage
        invariant popped == before[..slice + i] && Holds(read + slice + i, before[slice + i..])
      {
        LoopSlotIs(read, slice + i, count, storage.Length);
        DropOne(before, slice + i);
        popped := Take(i, read + slice + i, before[slice + i..], popped);
      }
    }

    /** Constructs an element in the raw slot behind the others. */
    method Construct(slot: nat, x: T, ghost lo: nat, ghost s: seq<T>)
      requires |s| < storage.Length && slot == SlotFor(lo + |s|, storage.Length) && Holds(lo, s)
      modifies storage
      ensures Holds(lo, s + [x])
    {
      assert storage[slot] == None;
      LapApart(lo, lo + |s|, storage.Length);
      storage[slot] := Some(x);
    }

    /** Moves the element out of its slot and destroys it. */
    method Take(slot: nat, ghost lo: nat, ghost s: seq<T>, popped: seq<T>) returns (more: seq<T>)
      requires s != [] && |s| <= storage.Length && slot == SlotFor(lo, storage.Length) && Holds(lo, s)
      modifies storage
      ensures Holds(lo + 1, s[1..]) && more == popped + [s[0]]
    {
      assert storage[SlotFor(lo, storage.Length)] == Some(s[lo - lo]);
      more := popped + [storage[slot].value];
      LapApart(lo, lo, storage.Length);
      SlotReturns(lo, storage.Length);
      storage[slot] := None;
    }
  }

  lemma DropOne<T>(s: seq<T>, i: nat)
    requires i < |s|
    ensures s[i..] != [] && s[i..][0] == s[i] && s[i..][1..] == s[i + 1..]
    ensures s[..i] + [s[i]] == s[..i + 1]
  {
  }

  lemma SlotReturns(p: nat, capacity: nat)
    requires capacity > 0
    ensures SlotFor(p + capacity, capacity) == SlotFor(p, capacity)
  {
    ModUnique(p + capacity, capacity, p / capacity + 1, p % capacity);
  }
}

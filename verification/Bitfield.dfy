/**
 * Little-endian bit fields over a byte buffer: bit n is bit n % 8 of byte n / 8.
 *
 * `GetBits` and `SetBits` say, bit by bit, what reading and writing a member means; the methods
 * below compute them the way the program does, through one word over the bytes the member spans.
 * There the shifts, masks and ors of the original are products, remainders and sums.
 */
module Bitfield {
  import opened Bytes

  /** Bit k of a number. */
  function TestBit(x: nat, k: nat): (b: nat)
    ensures b < 2
  {
    if k == 0 then x % 2 else TestBit(x / 2, k - 1)
  }

  function BitAt(b: seq<Byte>, n: nat): (bit: nat)
    requires n < 8 * |b|
    ensures bit < 2
  {
    TestBit(b[n / 8], n % 8)
  }

  /** The value of the `width` bits from `index` on, lowest first. */
  function GetBits(b: seq<Byte>, index: nat, width: nat): (v: nat)
    requires index + width <= 8 * |b|
    ensures v < Pow2(width)
    decreases width
  {
    if width == 0 then 0
    else BitAt(b, index) + 2 * GetBits(b, index + 1, width - 1)
  }

  /** Two's-complement reading of a member of a signed type. */
  function SignExtend(v: nat, width: nat): int
    requires 0 < width && v < Pow2(width)
  {
    if v < Pow2(width - 1) then v else v - Pow2(width)
  }

  /** The number whose low n bits are given. */
  function Compose(bit: nat -> bool, n: nat): (v: nat)
    ensures v < Pow2(n)
  {
    if n == 0 then 0
    else (if bit(0) then 1 else 0) + 2 * Compose((k: nat) => bit(k + 1), n - 1)
  }

  /** The bit at position n after the member was set to v. */
  function PatchedBit(b: seq<Byte>, index: nat, width: nat, v: nat, n: nat): (bit: nat)
    requires n < 8 * |b|
    ensures bit < 2
  {
    if index <= n < index + width then TestBit(v, n - index) else BitAt(b, n)
  }

  function SetBits(b: seq<Byte>, index: nat, width: nat, v: nat): (c: seq<Byte>)
    requires index + width <= 8 * |b|
    ensures |c| == |b|
  {
    seq(|b|, (i: int) requires 0 <= i < |b| => PatchedByte(b, index, width, v, i))
  }

  function PatchedByte(b: seq<Byte>, index: nat, width: nat, v: nat, i: nat): Byte
    requires i < |b|
  {
    var bit := (k: nat) => k < 8 && PatchedBit(b, index, width, v, 8 * i + k) == 1;
    assert Pow2(8) == 256;
    Compose(bit, 8)
  }

  // ---------------------------------------------------------------------------------------
  // Laws

  lemma {:induction false} TestCompose(bit: nat -> bool, n: nat, k: nat)
    requires k < n
    ensures TestBit(Compose(bit, n), k) == if bit(k) then 1 else 0
    decreases n
  {
    if k > 0 {
      TestCompose((j: nat) => bit(j + 1), n - 1, k - 1);
    }
  }

  /** Setting a member changes its own bits to those of the value, and no other bit. */
  lemma SetBitsAt(b: seq<Byte>, index: nat, width: nat, v: nat, n: nat)
    requires index + width <= 8 * |b| && n < 8 * |b|
    ensures BitAt(SetBits(b, index, width, v), n) == PatchedBit(b, index, width, v, n)
  {
    hide Compose, TestBit;
    var i := n / 8;
    var bit := (k: nat) => k < 8 && PatchedBit(b, index, width, v, 8 * i + k) == 1;
    assert SetBits(b, index, width, v)[i] == Compose(bit, 8);
    TestCompose(bit, 8, n % 8);
    assert 8 * i + n % 8 == n;
  }

  /** A member's value depends on its own bits only, wherever they lie. */
  lemma {:induction false} GetBitsSame(b: seq<Byte>, i: nat, c: seq<Byte>, j: nat, width: nat)
    requires i + width <= 8 * |b| && j + width <= 8 * |c|
    requires forall n: nat | i <= n < i + width :: BitAt(b, n) == BitAt(c, j + (n - i))
    ensures GetBits(b, i, width) == GetBits(c, j, width)
    decreases width
  {
    if width > 0 {
      GetBitsSame(b, i + 1, c, j + 1, width - 1);
    }
  }

  lemma {:induction false} GetBitsOfValue(b: seq<Byte>, i: nat, width: nat, v: nat)
    requires i + width <= 8 * |b|
    requires forall n: nat | i <= n < i + width :: BitAt(b, n) == TestBit(v, n - i)
    ensures GetBits(b, i, width) == v % Pow2(width)
    decreases width
  {
    if width > 0 {
      forall n: nat | i + 1 <= n < i + width ensures BitAt(b, n) == TestBit(v / 2, n - (i + 1)) {
        assert TestBit(v, n - i) == TestBit(v / 2, n - i - 1);
      }
      GetBitsOfValue(b, i + 1, width - 1, v / 2);
      ModStep(v, Pow2(width - 1));
    }
  }

  lemma ModStep(v: nat, m: nat)
    requires m > 0
    ensures v % (2 * m) == v % 2 + 2 * (v / 2 % m)
  {
    var q, r := v / 2 / m, v / 2 % m;
    assert v / 2 == m * q + r;
    assert v == 2 * m * q + (v % 2 + 2 * r);
    ModUnique(v, 2 * m, q, v % 2 + 2 * r);
  }

  lemma ModUnique(v: nat, m: nat, q: nat, r: nat)
    requires m > 0 && r < m && v == m * q + r
    ensures v % m == r && v / m == q
  {
    var d := v / m - q;
    assert v == m * (v / m) + v % m;
    assert m * d == m * (v / m) - m * q;
    MultipleApart(m, d);
  }

  lemma MultipleApart(m: nat, d: int)
    ensures d > 0 ==> m * d >= m
    ensures d < 0 ==> m * d + m <= 0
  {
  }

  /** Reading back a member gives the value truncated to its width. */
  lemma GetAfterSet(b: seq<Byte>, index: nat, width: nat, v: nat)
    requires index + width <= 8 * |b|
    ensures GetBits(SetBits(b, index, width, v), index, width) == v % Pow2(width)
  {
    hide SetBits, BitAt, TestBit;
    forall n: nat | index <= n < index + width
      ensures BitAt(SetBits(b, index, width, v), n) == TestBit(v, n - index)
    {
      SetBitsAt(b, index, width, v, n);
    }
    GetBitsOfValue(SetBits(b, index, width, v), index, width, v);
  }

  /** Setting one member leaves every disjoint one as it was. */
  lemma GetOther(b: seq<Byte>, index: nat, width: nat, v: nat, other: nat, otherWidth: nat)
    requires index + width <= 8 * |b| && other + otherWidth <= 8 * |b|
    requires index + width <= other || other + otherWidth <= index
    ensures GetBits(SetBits(b, index, width, v), other, otherWidth) == GetBits(b, other, otherWidth)
  {
    hide SetBits, BitAt, TestBit;
    forall n: nat | other <= n < other + otherWidth
      ensures BitAt(SetBits(b, index, width, v), n) == BitAt(b, other + (n - other))
    {
      SetBitsAt(b, index, width, v, n);
    }
    GetBitsSame(SetBits(b, index, width, v), other, b, other, otherWidth);
  }

  /** Numbers of n bits with the same bits are the same. */
  lemma {:induction false} SameBits(x: nat, y: nat, n: nat)
    requires x < Pow2(n) && y < Pow2(n)
    requires forall k: nat | k < n :: TestBit(x, k) == TestBit(y, k)
    ensures x == y
  {
    if n > 0 {
      assert TestBit(x, 0) == TestBit(y, 0);
      forall k: nat | k < n - 1 ensures TestBit(x / 2, k) == TestBit(y / 2, k) {
        assert TestBit(x, k + 1) == TestBit(y, k + 1);
      }
      SameBits(x / 2, y / 2, n - 1);
    }
  }

  /** Buffers are equal when all their bits are. */
  lemma BitwiseEqual(b: seq<Byte>, c: seq<Byte>)
    requires |b| == |c|
    requires forall n: nat | n < 8 * |b| :: BitAt(b, n) == BitAt(c, n)
    ensures b == c
  {
    forall i | 0 <= i < |b| ensures b[i] == c[i] {
      forall k: nat | k < 8 ensures TestBit(b[i], k) == TestBit(c[i], k) {
        assert (8 * i + k) / 8 == i && (8 * i + k) % 8 == k;
        assert BitAt(b, 8 * i + k) == BitAt(c, 8 * i + k);
      }
      assert Pow2(8) == 256;
      SameBits(b[i], c[i], 8);
    }
  }

  /** Members that share no bit can be set in either order. */
  lemma SetCommutes(b: seq<Byte>, i: nat, w: nat, v: nat, j: nat, x: nat, u: nat)
    requires i + w <= 8 * |b| && j + x <= 8 * |b|
    requires i + w <= j || j + x <= i
    ensures SetBits(SetBits(b, i, w, v), j, x, u) == SetBits(SetBits(b, j, x, u), i, w, v)
  {
    var first, second := SetBits(b, i, w, v), SetBits(b, j, x, u);
    forall n: nat | n < 8 * |b|
      ensures BitAt(SetBits(first, j, x, u), n) == BitAt(SetBits(second, i, w, v), n)
    {
      SetBitsAt(b, i, w, v, n);
      SetBitsAt(b, j, x, u, n);
      SetBitsAt(first, j, x, u, n);
      SetBitsAt(second, i, w, v, n);
    }
    BitwiseEqual(SetBits(first, j, x, u), SetBits(second, i, w, v));
  }

  lemma Pow2Step(w: nat)
    requires w > 0
    ensures Pow2(w) == 2 * Pow2(w - 1)
  {
  }

  /** A signed member reads back every value its width can hold. */
  lemma SignedRoundTrip(b: seq<Byte>, index: nat, width: nat, v: int)
    requires index + width <= 8 * |b| && 0 < width
    requires 0 - Pow2(width - 1) <= v < Pow2(width - 1)
    ensures var stored := if v < 0 then v + Pow2(width) else v;
            && stored >= 0
            && SignExtend(GetBits(SetBits(b, index, width, stored), index, width), width) == v
  {
    hide Pow2, GetBits, SetBits;
    var stored := if v < 0 then v + Pow2(width) else v;
    Pow2Step(width);
    GetAfterSet(b, index, width, stored);
    ModUnique(stored, Pow2(width), 0, stored);
  }

  // ---------------------------------------------------------------------------------------
  // Through one word

  /** The little-endian number over the bytes. */
  function Number(b: seq<Byte>): (x: nat)
    ensures x < Pow2(8 * |b|)
  {
    if b == [] then 0
    else
      Pow2Shift(8 * (|b| - 1));
      b[0] + 256 * Number(b[1..])
  }

  lemma Pow2Shift(n: nat)
    ensures Pow2(n + 8) == 256 * Pow2(n)
  {
    assert Pow2(n + 1) == 2 * Pow2(n) && Pow2(n + 2) == 2 * Pow2(n + 1);
    assert Pow2(n + 3) == 2 * Pow2(n + 2) && Pow2(n + 4) == 2 * Pow2(n + 3);
    assert Pow2(n + 5) == 2 * Pow2(n + 4) && Pow2(n + 6) == 2 * Pow2(n + 5);
    assert Pow2(n + 7) == 2 * Pow2(n + 6);
  }

  lemma {:induction false} TestBitShift(low: nat, high: nat, n: nat, k: nat)
    requires low < Pow2(n)
    ensures TestBit(low + Pow2(n) * high, k) == if k < n then TestBit(low, k) else TestBit(high, k - n)
    decreases n
  {
    if n > 0 {
      var x := low + Pow2(n) * high;
      assert x == low + 2 * (Pow2(n - 1) * high);
      assert x / 2 == low / 2 + Pow2(n - 1) * high && x % 2 == low % 2;
      if k > 0 {
        TestBitShift(low / 2, high, n - 1, k - 1);
      }
    }
  }

  /** Bit n of the number is bit n of the buffer. */
  lemma {:induction false} NumberBits(b: seq<Byte>, n: nat)
    requires n < 8 * |b|
    ensures TestBit(Number(b), n) == BitAt(b, n)
    decreases |b|
  {
    assert Pow2(8) == 256;
    TestBitShift(b[0], Number(b[1..]), 8, n);
    if n >= 8 {
      NumberBits(b[1..], n - 8);
      assert (n - 8) / 8 == n / 8 - 1 && (n - 8) % 8 == n % 8;
    }
  }

  lemma {:induction false} NumberSnoc(b: seq<Byte>, last: Byte)
    ensures Number(b + [last]) == Number(b) + Pow2(8 * |b|) * last
    decreases |b|
  {
    if b == [] {
      assert [] + [last] == [last];
      assert Number([last][1..]) == 0;
    } else {
      assert (b + [last])[1..] == b[1..] + [last];
      NumberSnoc(b[1..], last);
      Pow2Shift(8 * (|b| - 1));
      Distributed(b[0], Number(b[1..]), Pow2(8 * (|b| - 1)), last);
    }
  }

  lemma Distributed(low: nat, high: nat, p: nat, last: nat)
    ensures low + 256 * (high + p * last) == (low + 256 * high) + (256 * p) * last
  {
  }

  /** x >> n */
  function Shr(x: nat, n: nat): nat {
    if n == 0 then x else Shr(x / 2, n - 1)
  }

  lemma {:induction false} ShrBits(x: nat, n: nat, k: nat)
    ensures TestBit(Shr(x, n), k) == TestBit(x, n + k)
    decreases n
  {
    if n > 0 {
      ShrBits(x / 2, n - 1, k);
    }
  }

  lemma {:induction false} LowBits(x: nat, w: nat, k: nat)
    requires k < w
    ensures TestBit(x % Pow2(w), k) == TestBit(x, k)
  {
    Pow2Step(w);
    ModStep(x, Pow2(w - 1));
    if k > 0 {
      LowBits(x / 2, w - 1, k - 1);
    }
  }

  /** The number whose w bits from o on are those of v. */
  function Replace(x: nat, o: nat, w: nat, v: nat): nat {
    if o > 0 then x % 2 + 2 * Replace(x / 2, o - 1, w, v)
    else if w > 0 then v % 2 + 2 * Replace(x / 2, 0, w - 1, v / 2)
    else x
  }

  lemma {:induction false} ReplaceBits(x: nat, o: nat, w: nat, v: nat, k: nat)
    ensures TestBit(Replace(x, o, w, v), k)
            == if o <= k < o + w then TestBit(v, k - o) else TestBit(x, k)
    decreases o + w
  {
    if o > 0 {
      if k > 0 { ReplaceBits(x / 2, o - 1, w, v, k - 1); }
    } else if w > 0 {
      if k > 0 { ReplaceBits(x / 2, 0, w - 1, v / 2, k - 1); }
    }
  }

  lemma {:induction false} MaskLow(x: nat, w: nat, v: nat)
    ensures Replace(x, 0, w, v) == x - x % Pow2(w) + v % Pow2(w)
    decreases w
  {
    if w > 0 {
      MaskLow(x / 2, w - 1, v / 2);
      ModStep(x, Pow2(w - 1));
      ModStep(v, Pow2(w - 1));
    }
  }

  lemma Doubled(p: nat, f: nat)
    ensures (2 * p) * f == 2 * (p * f)
  {
  }

  /** Masking the member out of the word and adding the masked, shifted value replaces it. */
  lemma {:induction false} MaskAndAdd(x: nat, o: nat, w: nat, v: nat)
    ensures Replace(x, o, w, v)
            == x - Pow2(o) * (Shr(x, o) % Pow2(w)) + Pow2(o) * (v % Pow2(w))
    decreases o
  {
    if o == 0 {
      MaskLow(x, w, v);
    } else {
      MaskAndAdd(x / 2, o - 1, w, v);
      Doubled(Pow2(o - 1), Shr(x, o) % Pow2(w));
      Doubled(Pow2(o - 1), v % Pow2(w));
    }
  }

  ghost predicate Fits(size: nat, index: nat, width: nat) {
    && 0 < width && index + width <= 8 * size
    && (index + width + 7) / 8 - index / 8 <= 8
  }

  /** The word over the bytes the member spans. */
  method Load(src: seq<Byte>, index: nat, width: nat) returns (accum: nat)
    requires Fits(|src|, index, width)
    ensures accum == Number(src[index / 8..(index + width + 7) / 8])
  {
    var firstByte := index / 8;
    var spanBytes := (index + width + 7) / 8 - firstByte;
    accum := 0;
    for i := 0 to spanBytes
      invariant accum == Number(src[firstByte..firstByte + i])
    {
      NumberSnoc(src[firstByte..firstByte + i], src[firstByte + i]);
      assert src[firstByte..firstByte + i] + [src[firstByte + i]] == src[firstByte..firstByte + i + 1];
      accum := accum + Pow2(8 * i) * src[firstByte + i];
    }
  }

  lemma SpanBits(src: seq<Byte>, index: nat, width: nat, n: nat)
    requires Fits(|src|, index, width) && 8 * (index / 8) <= n < 8 * ((index + width + 7) / 8)
    ensures n < 8 * |src|
    ensures TestBit(Number(src[index / 8..(index + width + 7) / 8]), n - 8 * (index / 8)) == BitAt(src, n)
  {
    var from := index / 8;
    var span := src[from..(index + width + 7) / 8];
    NumberBits(span, n - 8 * from);
    assert (n - 8 * from) / 8 == n / 8 - from && (n - 8 * from) % 8 == n % 8;
  }

  method ReadBits(src: seq<Byte>, index: nat, width: nat) returns (value: nat)
    requires Fits(|src|, index, width)
    ensures value == GetBits(src, index, width)
  {
    var accum := Load(src, index, width);
    var innerOffset := index - index / 8 * 8;
    value := Shr(accum, innerOffset) % Pow2(width);
    forall n: nat | index <= n < index + width
      ensures BitAt(src, n) == TestBit(Shr(accum, innerOffset), n - index)
    {
      SpanBits(src, index, width, n);
      ShrBits(accum, innerOffset, n - index);
    }
    GetBitsOfValue(src, index, width, Shr(accum, innerOffset));
  }

  /** Bits of the signed type the sign extension is computed in. */
  function ComputeBits(index: nat, width: nat): nat {
    if (index + width + 7) / 8 - index / 8 <= 4 then 32 else 64
  }

  /** A word taken as a number in two's complement. */
  function AsSigned(v: nat, bits: nat): int
    requires bits > 0 && v < Pow2(bits)
  {
    if v < Pow2(bits - 1) then v else v - Pow2(bits)
  }

  lemma {:induction false} Pow2Product(a: nat, b: nat)
    ensures Pow2(a + b) == Pow2(a) * Pow2(b)
  {
    if a > 0 {
      Pow2Product(a - 1, b);
    }
  }

  lemma ScaledBelow(v: nat, p: nat, m: nat)
    requires m > 0
    ensures v < p ==> v * m < p * m
    ensures v >= p ==> v * m >= p * m
  {
  }

  lemma Unscaled(v: int, m: nat)
    requires m > 0
    ensures v * m / m == v
  {
    var x := v * m;
    var d := x / m - v;
    assert x == m * (x / m) + x % m;
    assert m * d == m * (x / m) - m * v;
    MultipleApart(m, d);
  }

  /** Shifting left to the top of the word and back, which copies the sign bit, extends the sign. */
  lemma ShiftsExtend(v: nat, width: nat, bits: nat)
    requires 0 < width <= bits && v < Pow2(width)
    ensures var m := Pow2(bits - width);
            v * m < Pow2(bits) && AsSigned(v * m, bits) / m == SignExtend(v, width)
  {
    hide Pow2;
    var m := Pow2(bits - width);
    Pow2Product(width, bits - width);
    Pow2Product(width - 1, bits - width);
    ScaledBelow(v, Pow2(width), m);
    ScaledBelow(v, Pow2(width - 1), m);
    if v < Pow2(width - 1) {
      Unscaled(v, m);
    } else {
      assert v * m - Pow2(width) * m == (v - Pow2(width)) * m;
      Unscaled(v - Pow2(width), m);
    }
  }

  method ReadSigned(src: seq<Byte>, index: nat, width: nat) returns (value: int)
    requires Fits(|src|, index, width)
    ensures value == SignExtend(GetBits(src, index, width), width)
  {
    hide Pow2, GetBits, AsSigned, SignExtend;
    var bits := ComputeBits(index, width);
    var unsigned := ReadBits(src, index, width);
    ShiftsExtend(unsigned, width, bits);
    var shifted := unsigned * Pow2(bits - width) % Pow2(bits);
    ModUnique(unsigned * Pow2(bits - width), Pow2(bits), 0, unsigned * Pow2(bits - width));
    value := AsSigned(shifted, bits) / Pow2(bits - width);
  }

  method WriteBits(dst: array<Byte>, index: nat, width: nat, value: nat)
    requires Fits(dst.Length, index, width)
    modifies dst
    ensures dst[..] == SetBits(old(dst[..]), index, width, value)
  {
    ghost var before := dst[..];
    var firstByte := index / 8;
    var spanBytes := (index + width + 7) / 8 - firstByte;
    var accum := Load(dst[..], index, width);
    var innerOffset := index - firstByte * 8;
    hide SetBits, Pow2, Shr, Replace, Number;
    MaskAndAdd(accum, innerOffset, width, value);
    accum := accum - Pow2(innerOffset) * (Shr(accum, innerOffset) % Pow2(width))
             + Pow2(innerOffset) * (value % Pow2(width));
    for i := 0 to spanBytes
      invariant forall j | 0 <= j < dst.Length ::
        dst[j] == if firstByte <= j < firstByte + i then Shr(accum, 8 * (j - firstByte)) % 256 else before[j]
    {
      dst[firstByte + i] := Shr(accum, 8 * i) % 256;
    }
    StoredSpan(before, dst[..], index, width, value, accum);
  }

  /** The buffer around the patched word, which lies in it byte by byte. */
  ghost predicate Stored(before: seq<Byte>, after: seq<Byte>, from: nat, to: nat, accum: nat) {
    && |after| == |before|
    && forall j | 0 <= j < |after| ::
         after[j] == if from <= j < to then Shr(accum, 8 * (j - from)) % 256 else before[j]
  }

  lemma StoredBit(before: seq<Byte>, after: seq<Byte>, index: nat, width: nat, value: nat, accum: nat, n: nat)
    requires Fits(|before|, index, width) && n < 8 * |before|
    requires var from, to := index / 8, (index + width + 7) / 8;
             && accum == Replace(Number(before[from..to]), index - 8 * from, width, value)
             && Stored(before, after, from, to, accum)
    ensures |after| == |before| && BitAt(after, n) == BitAt(SetBits(before, index, width, value), n)
  {
    hide SetBits, Replace, Number, Pow2;
    var from, to := index / 8, (index + width + 7) / 8;
    SetBitsAt(before, index, width, value, n);
    var j, k := n / 8, n % 8;
    if from <= j < to {
      assert Pow2(8) == 256 by { Pow2Shift(0); Pow2Start(); }
      LowBits(Shr(accum, 8 * (j - from)), 8, k);
      ShrBits(accum, 8 * (j - from), k);
      ReplaceBits(Number(before[from..to]), index - 8 * from, width, value, n - 8 * from);
      SpanBits(before, index, width, n);
    }
  }

  lemma Pow2Start()
    ensures Pow2(0) == 1
  {
  }

  /** Storing the patched word byte by byte sets exactly the member. */
  lemma StoredSpan(before: seq<Byte>, after: seq<Byte>, index: nat, width: nat, value: nat, accum: nat)
    requires Fits(|before|, index, width) && |after| == |before|
    requires var from, to := index / 8, (index + width + 7) / 8;
             && accum == Replace(Number(before[from..to]), index - 8 * from, width, value)
             && Stored(before, after, from, to, accum)
    ensures after == SetBits(before, index, width, value)
  {
    hide SetBits, BitAt, Stored, Replace, Number;
    forall n: nat | n < 8 * |before|
      ensures BitAt(after, n) == BitAt(SetBits(before, index, width, value), n)
    {
      StoredBit(before, after, index, width, value, accum, n);
    }
    BitwiseEqual(after, SetBits(before, index, width, value));
  }
}

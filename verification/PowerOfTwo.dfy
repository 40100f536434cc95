/** Powers of two in size_t arithmetic: masking a counter, and rounding a capacity up. */
module PowerOfTwo {
  import opened Bytes
  import opened Bitfield

  /** Bitwise disjunction of the low w bits. */
  function OrBits(a: nat, b: nat, w: nat): (c: nat)
    ensures c < Pow2(w)
  {
    if w == 0 then 0
    else (if a % 2 == 1 || b % 2 == 1 then 1 else 0) + 2 * OrBits(a / 2, b / 2, w - 1)
  }

  lemma {:induction false} OrBitsAt(a: nat, b: nat, w: nat, k: nat)
    requires k < w
    ensures TestBit(OrBits(a, b, w), k) == if TestBit(a, k) == 1 || TestBit(b, k) == 1 then 1 else 0
    decreases w
  {
    if k > 0 {
      OrBitsAt(a / 2, b / 2, w - 1, k - 1);
    }
  }

  /** Masking with 2^k - 1 keeps the remainder. */
  lemma {:induction false} MaskIsRemainder(x: nat, k: nat, w: nat)
    requires k <= w
    ensures AndBits(x, Pow2(k) - 1, w) == x % Pow2(k)
    decreases w
  {
    if k == 0 {
      AndZero(x, w);
    } else {
      var mask := Pow2(k) - 1;
      assert mask % 2 == 1 && mask / 2 == Pow2(k - 1) - 1;
      MaskIsRemainder(x / 2, k - 1, w - 1);
      ModStep(x, Pow2(k - 1));
    }
  }

  lemma {:induction false} AndZero(x: nat, w: nat)
    ensures AndBits(x, 0, w) == 0
  {
    if w > 0 {
      AndZero(x / 2, w - 1);
    }
  }

  lemma {:induction false} Pow2Grows(a: nat, b: nat)
    requires a <= b
    ensures Pow2(a) <= Pow2(b)
  {
    if a < b {
      Pow2Grows(a, b - 1);
    }
  }

  /** A larger power of two is a multiple of a smaller one. */
  lemma {:induction false} Pow2Splits(a: nat, b: nat)
    ensures Pow2(a + b) == Pow2(a) * Pow2(b)
  {
    if a > 0 {
      Pow2Splits(a - 1, b);
      Doubled(Pow2(a - 1), Pow2(b));
    }
  }

  lemma {:induction false} OnesAt(n: nat, k: nat)
    requires k < n
    ensures TestBit(Pow2(n) - 1, k) == 1
  {
    assert (Pow2(n) - 1) / 2 == Pow2(n - 1) - 1 && (Pow2(n) - 1) % 2 == 1;
    if k > 0 {
      OnesAt(n - 1, k - 1);
    }
  }

  /** Bits above the size of a number are clear. */
  lemma {:induction false} ClearAbove(x: nat, n: nat, k: nat)
    requires x < Pow2(n) && k >= n
    ensures TestBit(x, k) == 0
    decreases k
  {
    if n == 0 {
      if k > 0 { ClearAbove(0, 0, k - 1); }
    } else {
      ClearAbove(x / 2, n - 1, k - 1);
    }
  }

  lemma {:induction false} TopBit(x: nat, h: nat)
    requires Pow2(h) <= x < Pow2(h + 1)
    ensures TestBit(x, h) == 1
  {
    if h > 0 {
      TopBit(x / 2, h - 1);
    }
  }

  // ---------------------------------------------------------------------------------------

  /** n |= n >> shift, in a word of w bits. */
  function Smear(n: nat, shift: nat, w: nat): nat {
    OrBits(n, Shr(n, shift), w)
  }

  /** The highest set bit is h, and so are at least `run` bits from it downwards. */
  ghost predicate RunBelow(n: nat, h: nat, run: nat) {
    && n < Pow2(h + 1)
    && forall k: nat | k <= h < k + run :: TestBit(n, k) == 1
  }

  /** Each step doubles the run of ones. */
  lemma SmearDoubles(n: nat, h: nat, run: nat, w: nat)
    requires h < w && RunBelow(n, h, run)
    ensures RunBelow(Smear(n, run, w), h, 2 * run)
  {
    hide TestBit;
    var m := Smear(n, run, w);
    forall k: nat | k <= h < k + 2 * run ensures TestBit(m, k) == 1 {
      OrBitsAt(n, Shr(n, run), w, k);
      ShrBits(n, run, k);
    }
    forall k: nat | h < k < w ensures TestBit(m, k) == 0 {
      OrBitsAt(n, Shr(n, run), w, k);
      ShrBits(n, run, k);
      ClearAbove(n, h + 1, k);
      ClearAbove(n, h + 1, run + k);
    }
    BelowFromBits(m, h + 1, w);
  }

  lemma {:induction false} BelowFromBits(x: nat, n: nat, w: nat)
    requires x < Pow2(w) && n <= w
    requires forall k: nat | n <= k < w :: TestBit(x, k) == 0
    ensures x < Pow2(n)
    decreases w
  {
    if n < w {
      if x >= Pow2(w - 1) {
        TopBit(x, w - 1);
      }
      BelowFromBits(x, n, w - 1);
    }
  }

  lemma RunIsOnes(n: nat, h: nat, run: nat)
    requires RunBelow(n, h, run) && run > h
    ensures n == Pow2(h + 1) - 1
  {
    hide TestBit;
    forall k: nat | k < h + 1 ensures TestBit(n, k) == TestBit(Pow2(h + 1) - 1, k) {
      OnesAt(h + 1, k);
    }
    SameBits(n, Pow2(h + 1) - 1, h + 1);
  }

  /** The smears of the routine, for a size_t of w bits. */
  function SmearAll(n: nat, w: nat): nat {
    var low := Smear(Smear(Smear(Smear(Smear(n, 1, w), 2, w), 4, w), 8, w), 16, w);
    if w > 32 then Smear(low, 32, w) else low
  }

  lemma SmearAllIsOnes(n: nat, h: nat, w: nat)
    requires (w == 32 || w == 64) && h < w && Pow2(h) <= n < Pow2(h + 1)
    ensures SmearAll(n, w) == Pow2(h + 1) - 1
  {
    hide Smear;
    TopBit(n, h);
    assert RunBelow(n, h, 1);
    SmearDoubles(n, h, 1, w);
    var a := Smear(n, 1, w);
    SmearDoubles(a, h, 2, w);
    var b := Smear(a, 2, w);
    SmearDoubles(b, h, 4, w);
    var c := Smear(b, 4, w);
    SmearDoubles(c, h, 8, w);
    var d := Smear(c, 8, w);
    SmearDoubles(d, h, 16, w);
    var e := Smear(d, 16, w);
    if w > 32 {
      SmearDoubles(e, h, 32, w);
      RunIsOnes(Smear(e, 32, w), h, 64);
    } else {
      RunIsOnes(e, h, 32);
    }
  }

  lemma {:induction false} SmearNothing(shift: nat, w: nat)
    ensures Smear(0, shift, w) == 0
  {
    ShrNothing(shift);
    OrNothing(w);
  }

  lemma {:induction false} ShrNothing(shift: nat)
    ensures Shr(0, shift) == 0
  {
    if shift > 0 { ShrNothing(shift - 1); }
  }

  lemma {:induction false} OrNothing(w: nat)
    ensures OrBits(0, 0, w) == 0
  {
    if w > 0 { OrNothing(w - 1); }
  }

  /** Between which powers of two a number lies. */
  lemma {:induction false} Bracket(n: nat, w: nat) returns (h: nat)
    requires 0 < n < Pow2(w)
    ensures h < w && Pow2(h) <= n < Pow2(h + 1)
  {
    h := w - 1;
    if n < Pow2(w - 1) {
      h := Bracket(n, w - 1);
    }
  }

  function RoundedUp(size: nat, w: nat): nat
    requires 0 < size
  {
    (SmearAll(size - 1, w) + 1) % Pow2(w)
  }

  lemma SmearAllNothing(w: nat)
    ensures SmearAll(0, w) == 0
  {
    SmearNothing(1, w);
    SmearNothing(2, w);
    SmearNothing(4, w);
    SmearNothing(8, w);
    SmearNothing(16, w);
    SmearNothing(32, w);
  }

  lemma SmearsToPower(size: nat, w: nat) returns (k: nat)
    requires (w == 32 || w == 64) && 0 < size < Pow2(w)
    ensures k <= w && SmearAll(size - 1, w) + 1 == Pow2(k)
    ensures size <= Pow2(k) && (k > 0 ==> Pow2(k - 1) < size)
  {
    hide SmearAll;
    if size == 1 {
      k := 0;
      SmearAllNothing(w);
    } else {
      var h := Bracket(size - 1, w);
      k := h + 1;
      SmearAllIsOnes(size - 1, h, w);
    }
  }

  /** The smallest power of two, of those a word can hold, that is not below the request. */
  ghost predicate IsLeastPower(n: nat, size: nat, w: nat) {
    exists k: nat :: k < w && n == Pow2(k) && size <= n && (k > 0 ==> Pow2(k - 1) < size)
  }

  /**
   * The result is the least power of two that is not below the request if and only if the request
   * is at most 2^(w-1); above that the addition wraps and the result is zero.
   */
  lemma RoundedUpIsLeast(size: nat, w: nat)
    requires (w == 32 || w == 64) && 0 < size < Pow2(w)
    ensures IsLeastPower(RoundedUp(size, w), size, w) <==> size <= Pow2(w - 1)
    ensures size > Pow2(w - 1) ==> RoundedUp(size, w) == 0
  {
    hide SmearAll, Pow2;
    var k := SmearsToPower(size, w);
    Pow2Step(w);
    if k < w {
      Pow2Grows(k, w - 1);
      ModUnique(Pow2(k), Pow2(w), 0, Pow2(k));
    } else {
      ModUnique(Pow2(w), Pow2(w), 1, 0);
    }
  }

  /** The routine itself: n - 1, smeared, plus one, all modulo 2^w. */
  method RoundUpToNextPowerOf2(size: nat, w: nat) returns (n: nat)
    requires (w == 32 || w == 64) && 0 < size < Pow2(w)
    ensures size <= Pow2(w - 1) ==> IsLeastPower(n, size, w)
    ensures size > Pow2(w - 1) ==> n == 0
  {
    hide Pow2, Smear, IsLeastPower;
    n := size - 1;
    n := Smear(n, 1, w);
    n := Smear(n, 2, w);
    n := Smear(n, 4, w);
    n := Smear(n, 8, w);
    n := Smear(n, 16, w);
    if w > 32 {
      n := Smear(n, 32, w);
    }
    assert n == SmearAll(size - 1, w);
    n := (n + 1) % Pow2(w);
    RoundedUpIsLeast(size, w);
  }
}

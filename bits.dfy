/**
 * Arithmetic on non-negative integers read as bit strings: powers of two and
 * reference definitions of bitwise AND, OR and complement. The subnet
 * arithmetic in the Parser module is stated against these definitions.
 */
module Bits {

  /** 2 to the power n. */
  function Pow2(n: nat): (r: nat)
    ensures r >= 1
  {
    if n == 0 then 1 else 2 * Pow2(n - 1)
  }

  lemma {:induction false} Pow2Add(a: nat, b: nat)
    ensures Pow2(a + b) == Pow2(a) * Pow2(b)
  {
    if a > 0 {
      Pow2Add(a - 1, b);
      calc {
        Pow2(a + b);
        2 * Pow2(a - 1 + b);
        2 * (Pow2(a - 1) * Pow2(b));
        (2 * Pow2(a - 1)) * Pow2(b);
      }
    }
  }

  lemma {:induction false} Pow2Monotone(a: nat, b: nat)
    requires a <= b
    ensures Pow2(a) <= Pow2(b)
  {
    if a < b {
      Pow2Monotone(a, b - 1);
    }
  }

  lemma Pow2Values()
    ensures Pow2(2) == 4 && Pow2(8) == 256 && Pow2(16) == 0x1_0000
    ensures Pow2(24) == 0x100_0000 && Pow2(32) == 0x1_0000_0000
  {
    assert Pow2(4) == 16;
    Pow2Add(4, 4);
    Pow2Add(8, 8);
    Pow2Add(16, 8);
    Pow2Add(16, 16);
  }

  /** Division by d is unique: any decomposition v == q * d + r with 0 <= r < d is Euclid's. */
  lemma DivModUnique(v: int, d: int, q: int, r: int)
    requires d > 0 && 0 <= r < d && v == q * d + r
    ensures v / d == q && v % d == r
  {
    var q', r' := v / d, v % d;
    assert v == q' * d + r';
    MulSub(q, q', d);
    assert (q - q') * d == r' - r;
    if q > q' {
      MulAtLeast(q - q', d);
    } else if q < q' {
      MulSub(q', q, d);
      MulAtLeast(q' - q, d);
    }
  }

  lemma MulSub(a: int, b: int, d: int)
    ensures (a - b) * d == a * d - b * d
  {
  }

  lemma MulAtLeast(x: int, d: int)
    requires x >= 1 && d > 0
    ensures x * d >= d
  {
  }

  /** The low h bits of a, one bit at a time from the least significant. */
  function Low(a: nat, h: nat): (r: nat)
  {
    if h == 0 then 0 else 2 * Low(a / 2, h - 1) + a % 2
  }

  /** a shifted right by h bits. */
  function Shift(a: nat, h: nat): (r: nat)
  {
    if h == 0 then a else Shift(a / 2, h - 1)
  }

  /** a splits into its bits above h, times 2^h, and its low h bits. */
  lemma {:induction false} SplitBits(a: nat, h: nat)
    ensures Low(a, h) < Pow2(h)
    ensures a == Shift(a, h) * Pow2(h) + Low(a, h)
  {
    if h > 0 {
      SplitBits(a / 2, h - 1);
      MulTwice(Shift(a / 2, h - 1), Pow2(h - 1));
    }
  }

  lemma MulTwice(x: int, y: int)
    ensures x * (2 * y) == 2 * (x * y)
  {
  }

  /** The low h bits are the remainder modulo 2^h, the bits above are the quotient. */
  lemma LowIsMod(a: nat, h: nat)
    ensures Low(a, h) == a % Pow2(h) && Shift(a, h) == a / Pow2(h)
  {
    SplitBits(a, h);
    DivModUnique(a, Pow2(h), Shift(a, h), Low(a, h));
  }

  /** Rounding down to a multiple of p. */
  lemma RoundDown(v: nat, p: nat)
    requires p > 0
    ensures v % p <= v && v - v % p == (v / p) * p && (v - v % p) % p == 0
  {
    DivModUnique(v - v % p, p, v / p, 0);
  }

  /** A multiple of 2^(a+b) is a multiple of 2^a. */
  lemma AlignedWeaken(v: nat, a: nat, b: nat)
    requires v % Pow2(a + b) == 0
    ensures v % Pow2(a) == 0
  {
    Pow2Add(a, b);
    var q := v / Pow2(a + b);
    assert v == (q * Pow2(b)) * Pow2(a);
    DivModUnique(v, Pow2(a), q * Pow2(b), 0);
  }

  /** Bitwise AND, one bit at a time from the least significant. */
  function BitAnd(a: nat, b: nat): (r: nat)
    ensures r <= a
  {
    if a == 0 then 0
    else 2 * BitAnd(a / 2, b / 2) + (if a % 2 == 1 && b % 2 == 1 then 1 else 0)
  }

  /** Bitwise OR, one bit at a time from the least significant. */
  function BitOr(a: nat, b: nat): (r: nat)
    decreases a + b
  {
    if a == 0 && b == 0 then 0
    else 2 * BitOr(a / 2, b / 2) + (if a % 2 == 1 || b % 2 == 1 then 1 else 0)
  }

  /** Bitwise complement of the low `width` bits of a. */
  function BitNot(a: nat, width: nat): (r: nat)
  {
    if width == 0 then 0 else 2 * BitNot(a / 2, width - 1) + (1 - a % 2)
  }

  /** AND with n one-bits keeps every n-bit number as it is. */
  lemma {:induction false} AndAllOnes(a: nat, n: nat)
    requires a < Pow2(n)
    ensures BitAnd(a, Pow2(n) - 1) == a
  {
    if n > 0 && a > 0 {
      AndAllOnes(a / 2, n - 1);
    }
  }

  /**
   * AND with a mask of n bits whose top n-h bits are set clears exactly the
   * low h bits of an n-bit number.
   */
  lemma {:induction false} AndHighLow(a: nat, n: nat, h: nat)
    requires h <= n && a < Pow2(n)
    ensures Pow2(h) <= Pow2(n)
    ensures BitAnd(a, Pow2(n) - Pow2(h)) == a - Low(a, h)
  {
    Pow2Monotone(h, n);
    if h == 0 {
      AndAllOnes(a, n);
    } else {
      assert a / 2 < Pow2(n - 1);
      AndHighLow(a / 2, n - 1, h - 1);
      AndHighStep(a, n, h);
    }
  }

  /** One step of AndHighLow: from the bits above the lowest to the whole number. */
  lemma AndHighStep(a: nat, n: nat, h: nat)
    requires 0 < h <= n && a < Pow2(n) && Pow2(h - 1) <= Pow2(n - 1)
    requires BitAnd(a / 2, Pow2(n - 1) - Pow2(h - 1)) == a / 2 - Low(a / 2, h - 1)
    ensures Pow2(h) <= Pow2(n)
    ensures BitAnd(a, Pow2(n) - Pow2(h)) == a - Low(a, h)
  {
    AndHighMaskStep(a, n, h);
    assert a == 2 * (a / 2) + a % 2;
  }

  lemma AndHighMaskStep(a: nat, n: nat, h: nat)
    requires 0 < h <= n && a < Pow2(n)
    ensures a / 2 < Pow2(n - 1) && Pow2(h) <= Pow2(n) && Pow2(h - 1) <= Pow2(n - 1)
    ensures BitAnd(a, Pow2(n) - Pow2(h)) == 2 * BitAnd(a / 2, Pow2(n - 1) - Pow2(h - 1))
    ensures Low(a, h) == 2 * Low(a / 2, h - 1) + a % 2
  {
    Pow2Monotone(h - 1, n - 1);
    var hi, lo := Pow2(n - 1), Pow2(h - 1);
    assert Pow2(n) - Pow2(h) == 2 * (hi - lo);
    DivModUnique(Pow2(n) - Pow2(h), 2, hi - lo, 0);
  }

  /** AND with the mask rounds an n-bit number down to a multiple of 2^h. */
  lemma AndHighMask(a: nat, n: nat, h: nat)
    requires h <= n && a < Pow2(n)
    ensures Pow2(h) <= Pow2(n)
    ensures BitAnd(a, Pow2(n) - Pow2(h)) == a - a % Pow2(h)
  {
    Pow2Monotone(h, n);
    AndHighLow(a, n, h);
    LowIsMod(a, h);
  }

  lemma {:induction false} OrZero(a: nat)
    ensures BitOr(a, 0) == a
  {
    if a > 0 {
      OrZero(a / 2);
    }
  }

  /** OR with h one-bits sets the low h bits. */
  lemma {:induction false} OrLowLow(a: nat, h: nat)
    ensures BitOr(a, Pow2(h) - 1) == a - Low(a, h) + Pow2(h) - 1
  {
    if h == 0 {
      OrZero(a);
    } else {
      OrLowOnesStep(a, h);
      OrLowLow(a / 2, h - 1);
    }
  }

  lemma OrLowOnesStep(a: nat, h: nat)
    requires h > 0
    ensures Pow2(h) == 2 * Pow2(h - 1)
    ensures BitOr(a, Pow2(h) - 1) == 2 * BitOr(a / 2, Pow2(h - 1) - 1) + 1
  {
    var ph := Pow2(h - 1);
    DivModUnique(Pow2(h) - 1, 2, ph - 1, 1);
  }

  /** OR with h one-bits: a rounded down to a multiple of 2^h, plus 2^h - 1. */
  lemma OrLowOnes(a: nat, h: nat)
    ensures BitOr(a, Pow2(h) - 1) == a - a % Pow2(h) + Pow2(h) - 1
  {
    OrLowLow(a, h);
    LowIsMod(a, h);
  }

  /** The complement of an n-bit number is its distance from n one-bits. */
  lemma {:induction false} NotValue(a: nat, n: nat)
    requires a < Pow2(n)
    ensures BitNot(a, n) == Pow2(n) - 1 - a
  {
    if n > 0 {
      NotValue(a / 2, n - 1);
    }
  }
}

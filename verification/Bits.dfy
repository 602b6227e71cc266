/** Unsigned 32-bit words as natural numbers: powers of two, shifts, bitwise or and bitwise and. */
module Bits {

  const WORD := 0x1_0000_0000

  function Pow2(n: nat): (p: nat)
    ensures p > 0
  {
    if n == 0 then 1 else 2 * Pow2(n - 1)
  }

  /** C's `x >> b`. */
  function Shr(x: nat, b: nat): nat {
    if b == 0 then x else Shr(x / 2, b - 1)
  }

  /** The lowest b bits of x. */
  function Low(x: nat, b: nat): nat {
    if b == 0 then 0 else x % 2 + 2 * Low(x / 2, b - 1)
  }

  /** C's `x | y`, one bit at a time. */
  function BitOr(x: nat, y: nat): nat {
    if x == 0 && y == 0 then 0
    else (if x % 2 == 1 || y % 2 == 1 then 1 else 0) + 2 * BitOr(x / 2, y / 2)
  }

  /** C's `x & y`, one bit at a time. */
  function BitAnd(x: nat, y: nat): nat {
    if x == 0 then 0
    else (if x % 2 == 1 && y % 2 == 1 then 1 else 0) + 2 * BitAnd(x / 2, y / 2)
  }

  lemma {:induction false} Pow2Add(a: nat, b: nat)
    ensures Pow2(a + b) == Pow2(a) * Pow2(b)
  {
    if a == 0 {
    } else {
      Pow2Add(a - 1, b);
      assert Pow2(a - 1 + b) * 2 == (Pow2(a - 1) * 2) * Pow2(b);
    }
  }

  lemma {:induction false} Pow2Monotonic(a: nat, b: nat)
    requires a <= b
    ensures Pow2(a) <= Pow2(b)
  {
    if a == b {
    } else {
      Pow2Monotonic(a, b - 1);
    }
  }

  lemma Pow2Values()
    ensures Pow2(32) == WORD && Pow2(28) == 0x1000_0000 && Pow2(16) == 0x1_0000
    ensures Pow2(14) == 0x4000 && Pow2(8) == 0x100
  {
    assert Pow2(7) == 128 && Pow2(8) == 256;
    Pow2Add(7, 7);
    Pow2Add(8, 8);
    Pow2Add(14, 14);
    Pow2Add(16, 16);
  }

  lemma {:induction false} OrZero(x: nat)
    ensures BitOr(x, 0) == x
  {
    if x == 0 {
    } else {
      OrZero(x / 2);
    }
  }

  /** Or-ing a value below 2^b into a word shifted left by b places is an addition. */
  lemma {:induction false} OrShifted(w: nat, v: nat, b: nat)
    requires v < Pow2(b)
    ensures BitOr(w * Pow2(b), v) == w * Pow2(b) + v
  {
    if b == 0 {
      OrZero(w);
    } else {
      var half := w * Pow2(b - 1);
      assert w * Pow2(b) == 2 * half;
      OrShifted(w, v / 2, b - 1);
      if half == 0 && v == 0 {
        assert BitOr(0, 0) == 0;
      }
    }
  }

  /** Masking with 2^b - 1 keeps the lowest b bits. */
  lemma {:induction false} AndMask(x: nat, b: nat)
    ensures BitAnd(x, Pow2(b) - 1) == Low(x, b)
  {
    if b == 0 {
      AndZero(x);
    } else {
      var m := Pow2(b - 1);
      assert (2 * m - 1) / 2 == m - 1 && (2 * m - 1) % 2 == 1;
      AndMask(x / 2, b - 1);
      if x == 0 {
        LowOfSmall(0, b);
      }
    }
  }

  lemma {:induction false} AndZero(x: nat)
    ensures BitAnd(x, 0) == 0
  {
    if x == 0 {
    } else {
      AndZero(x / 2);
    }
  }

  lemma {:induction false} LowOfSmall(x: nat, b: nat)
    requires x < Pow2(b)
    ensures Low(x, b) == x
  {
    if b == 0 {
    } else {
      LowOfSmall(x / 2, b - 1);
    }
  }

  lemma {:induction false} LowBelow(x: nat, b: nat)
    ensures Low(x, b) < Pow2(b)
  {
    if b == 0 {
    } else {
      LowBelow(x / 2, b - 1);
    }
  }

  /** Splitting a word at bit a and the rest at bit b is splitting it at bit a + b. */
  lemma {:induction false} SplitWord(x: nat, a: nat, b: nat)
    ensures Shr(x, a + b) == Shr(Shr(x, a), b)
    ensures Low(x, a + b) == Low(x, a) + Pow2(a) * Low(Shr(x, a), b)
  {
    if a == 0 {
    } else {
      SplitWord(x / 2, a - 1, b);
      Associate(2, Pow2(a - 1), Low(Shr(x, a), b));
    }
  }

  lemma {:induction false} ShrZero(b: nat)
    ensures Shr(0, b) == 0 && Low(0, b) == 0
  {
    if b == 0 {
    } else {
      ShrZero(b - 1);
    }
  }

  lemma Associate(a: int, b: int, c: int)
    ensures a * (b * c) == (a * b) * c
  {
  }

  lemma Distribute(d: int, a: int, b: int)
    ensures d * (a - b) == d * a - d * b
  {
  }

  lemma {:induction false} MulAtLeast(d: nat, k: nat)
    requires k >= 1
    ensures d * k >= d
  {
    if k == 1 {
    } else {
      MulAtLeast(d, k - 1);
      assert d * k == d * (k - 1) + d;
    }
  }

  lemma MulMonotonic(c: nat, a: nat, b: nat)
    requires a <= b
    ensures c * a <= c * b
  {
    assert c * b == c * a + c * (b - a);
  }

  /** A number has one representation r + d * q with r below d. */
  lemma DigitsUnique(d: nat, q: nat, r: nat, q': nat, r': nat)
    requires r < d && r' < d && r + d * q == r' + d * q'
    ensures q == q' && r == r'
  {
    if q > q' {
      Distribute(d, q, q');
      MulAtLeast(d, q - q');
    } else if q < q' {
      Distribute(d, q', q);
      MulAtLeast(d, q' - q);
    }
  }
}

/**
 * Non-negative integers read as bit strings: the 24-bit masks of the
 * quarter-tone octave and the JavaScript bitwise operators `&` and `|`
 * that the note matcher applies to them.
 *
 * JavaScript evaluates `&` and `|` on 32-bit two's-complement integers;
 * every operand here is below 2^24, where that agrees with the bitwise
 * operation on naturals defined below.
 */
module Bits {

  /** A 24-bit mask: one bit per quarter-tone position. */
  type Mask = x: nat | x < 0x1000000

  function Pow2(n: nat): (r: nat)
    ensures r >= 1
  {
    if n == 0 then 1 else 2 * Pow2(n - 1)
  }

  /** Bit `k` of `x`, bit 0 being the least significant. */
  predicate Bit(x: nat, k: nat)
  {
    if k == 0 then x % 2 == 1 else Bit(x / 2, k - 1)
  }

  /** JavaScript `a | b` on non-negative operands. */
  function Or(a: nat, b: nat): nat
    decreases a + b
  {
    if a == 0 && b == 0 then 0
    else 2 * Or(a / 2, b / 2) + (if a % 2 == 1 || b % 2 == 1 then 1 else 0)
  }

  /** JavaScript `a & b` on non-negative operands. */
  function And(a: nat, b: nat): nat
    decreases a + b
  {
    if a == 0 || b == 0 then 0
    else 2 * And(a / 2, b / 2) + (if a % 2 == 1 && b % 2 == 1 then 1 else 0)
  }

  /** Number of set bits. */
  function PopCount(x: nat): nat
  {
    if x == 0 then 0 else x % 2 + PopCount(x / 2)
  }

  lemma Pow2Values()
    ensures Pow2(23) == 0x800000 && Pow2(24) == 0x1000000
  {
    Pow2Sum(4, 4);
    Pow2Sum(8, 8);
    Pow2Sum(16, 4);
    Pow2Sum(20, 3);
  }

  lemma {:induction false} Pow2Sum(a: nat, b: nat)
    ensures Pow2(a + b) == Pow2(a) * Pow2(b)
  {
    if b > 0 {
      Pow2Sum(a, b - 1);
    }
  }

  lemma {:induction false} Pow2Increasing(k: nat, n: nat)
    requires k < n
    ensures Pow2(k) < Pow2(n)
  {
    if k < n - 1 {
      Pow2Increasing(k, n - 1);
    }
  }

  /** Doubling and adding a bit shifts every bit up by one position. */
  lemma ShiftedBit(y: nat, c: nat, k: nat)
    requires c < 2
    ensures Bit(2 * y + c, k) == if k == 0 then c == 1 else Bit(y, k - 1)
  {
  }

  /** The bit of a power of two: exactly one is set. */
  lemma {:induction false} Pow2Bit(n: nat, k: nat)
    ensures Bit(Pow2(n), k) <==> k == n
  {
    if n == 0 {
      if k > 0 {
        ZeroBit(k - 1);
      }
    } else {
      ShiftedBit(Pow2(n - 1), 0, k);
      if k > 0 {
        Pow2Bit(n - 1, k - 1);
      }
    }
  }

  lemma {:induction false} ZeroBit(k: nat)
    ensures !Bit(0, k)
  {
    if k > 0 {
      ZeroBit(k - 1);
    }
  }

  /** A number below 2^n has no bit set at position n or above. */
  lemma {:induction false} HighBitsClear(x: nat, n: nat, k: nat)
    requires x < Pow2(n) && n <= k
    ensures !Bit(x, k)
  {
    if n == 0 {
      assert x == 0;
      ZeroBit(k);
    } else {
      HighBitsClear(x / 2, n - 1, k - 1);
    }
  }

  /** Two numbers with the same bits are equal. */
  lemma {:induction false} BitsDetermine(x: nat, y: nat)
    requires forall k: nat :: Bit(x, k) == Bit(y, k)
    ensures x == y
    decreases x + y
  {
    assert Bit(x, 0) == Bit(y, 0);
    if x != 0 || y != 0 {
      forall k: nat
        ensures Bit(x / 2, k) == Bit(y / 2, k)
      {
        assert Bit(x, k + 1) == Bit(y, k + 1);
      }
      BitsDetermine(x / 2, y / 2);
    }
  }

  /**
   * Adding a power of two above every set bit of `y` sets exactly that
   * bit and keeps the others: the bits of `y + (top ? 2^n : 0)`.
   */
  lemma {:induction false} TopBit(y: nat, top: bool, n: nat, k: nat)
    requires y < Pow2(n)
    ensures Bit(y + (if top then Pow2(n) else 0), k)
        <==> (if k == n then top else k < n && Bit(y, k))
  {
    var t := if top then Pow2(n) else 0;
    if n == 0 {
      assert y == 0;
      ShiftedBit(0, if top then 1 else 0, k);
      if k > 0 {
        ZeroBit(k - 1);
      }
    } else {
      assert y + t == 2 * (y / 2 + t / 2) + y % 2;
      ShiftedBit(y / 2 + t / 2, y % 2, k);
      if k > 0 {
        assert t / 2 == if top then Pow2(n - 1) else 0;
        TopBit(y / 2, top, n - 1, k - 1);
      }
    }
  }

  /** Below 2^(n+1), bit n is set exactly from 2^n on. */
  lemma TopBitThreshold(x: nat, n: nat)
    requires x < Pow2(n + 1)
    ensures Bit(x, n) <==> x >= Pow2(n)
  {
    if x >= Pow2(n) {
      TopBit(x - Pow2(n), true, n, n);
    } else {
      TopBit(x, false, n, n);
    }
  }

  /** Setting a fresh top bit adds one to the population count. */
  lemma {:induction false} PopCountTop(y: nat, n: nat)
    requires y < Pow2(n)
    ensures PopCount(y + Pow2(n)) == PopCount(y) + 1
  {
    if n == 0 {
      assert y == 0;
    } else {
      assert (y + Pow2(n)) / 2 == y / 2 + Pow2(n - 1);
      PopCountTop(y / 2, n - 1);
    }
  }

  /** `|` is bitwise disjunction. */
  lemma {:induction false} OrBit(a: nat, b: nat, k: nat)
    ensures Bit(Or(a, b), k) <==> Bit(a, k) || Bit(b, k)
    decreases a + b
  {
    if a == 0 && b == 0 {
      ZeroBit(k);
    } else {
      ShiftedBit(Or(a / 2, b / 2), if a % 2 == 1 || b % 2 == 1 then 1 else 0, k);
      if k > 0 {
        OrBit(a / 2, b / 2, k - 1);
      }
    }
  }

  /** `x & 2^n` isolates bit n of `x`. */
  lemma {:induction false} AndPow2(x: nat, n: nat)
    ensures And(x, Pow2(n)) == if Bit(x, n) then Pow2(n) else 0
  {
    if x == 0 {
      ZeroBit(n);
    } else if n > 0 {
      AndPow2(x / 2, n - 1);
    }
  }
}

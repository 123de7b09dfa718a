/**
 * The 24-bit left rotation that the note matcher applies to a maqam
 * variation's mask before testing each successive note
 * (static/index.js:50-55).
 */
module Rotation {
  import opened Bits

  /**
   * One step of the inline rotate: take the top bit out as the carry,
   * shift the rest left by one and put the carry back in at bit 0.
   * The shift `<< 1` is a doubling: its operand is below 2^23, so the
   * 32-bit shift of JavaScript cannot overflow.
   */
  function RotL1(adjusted: Mask): (r: nat)
    ensures r < 0x1000000
  {
    var carry := And(adjusted, Pow2(23));
    AndPow2(adjusted, 23);
    Pow2Values();
    TopBitThreshold(adjusted, 23);
    (adjusted - carry) * 2 + (if carry == 0 then 0 else 1)
  }

  /** The variation as compared with the note at index `i`: rotated `i` times. */
  function RotN(x: Mask, i: nat): Mask
  {
    if i == 0 then x else RotL1(RotN(x, i - 1))
  }

  /**
   * The step is the textbook rotation: double modulo 2^24, and bring the
   * bit that fell off the top back in at the bottom.
   */
  lemma RotL1IsRotate(x: Mask)
    ensures RotL1(x) == (2 * x) % 0x1000000 + x / 0x800000
  {
    AndPow2(x, 23);
    Pow2Values();
    TopBitThreshold(x, 23);
    if x < 0x800000 {
      assert And(x, Pow2(23)) == 0;
      assert x / 0x800000 == 0 && (2 * x) % 0x1000000 == 2 * x;
    } else {
      assert And(x, Pow2(23)) == 0x800000;
      assert x / 0x800000 == 1 && (2 * x) % 0x1000000 == 2 * x - 0x1000000;
    }
  }

  /** Bit k of the rotated mask is bit k - 1 of the original, cyclically. */
  lemma RotL1Bit(x: Mask, k: nat)
    requires k < 24
    ensures Bit(RotL1(x), k) <==> Bit(x, (k + 23) % 24)
  {
    Pow2Values();
    AndPow2(x, 23);
    TopBitThreshold(x, 23);
    var top := Bit(x, 23);
    var y := if top then x - Pow2(23) else x;
    assert x == y + (if top then Pow2(23) else 0);
    assert RotL1(x) == 2 * y + (if top then 1 else 0);
    ShiftedBit(y, if top then 1 else 0, k);
    if k > 0 {
      TopBit(y, top, 23, k - 1);
    }
  }

  /** The rotation neither sets nor clears any bit overall. */
  lemma RotL1PopCount(x: Mask)
    ensures PopCount(RotL1(x)) == PopCount(x)
  {
    Pow2Values();
    AndPow2(x, 23);
    TopBitThreshold(x, 23);
    var c := if Bit(x, 23) then 1 else 0;
    var y := x - c * Pow2(23);
    assert RotL1(x) == 2 * y + c;
    assert (2 * y + c) / 2 == y;
    if c == 1 {
      PopCountTop(y, 23);
    }
  }

  /**
   * After `i` steps (at most one full turn) bit k holds what was bit
   * k - i of the original, counted modulo 24.
   */
  lemma {:induction false} RotNBit(x: Mask, i: nat, k: nat)
    requires i <= 24 && k < 24
    ensures Bit(RotN(x, i), k) <==> Bit(x, if k >= i then k - i else k + 24 - i)
  {
    if i > 0 {
      var before := if k == 0 then 23 else k - 1;
      assert (k + 23) % 24 == before;
      RotL1Bit(RotN(x, i - 1), k);
      RotNBit(x, i - 1, before);
    }
  }

  /** Rotating 24 times gives back the original mask. */
  lemma RotNPeriod(x: Mask)
    ensures RotN(x, 24) == x
  {
    Pow2Values();
    forall k: nat
      ensures Bit(RotN(x, 24), k) == Bit(x, k)
    {
      if k < 24 {
        RotNBit(x, 24, k);
      } else {
        HighBitsClear(RotN(x, 24), 24, k);
        HighBitsClear(x, 24, k);
      }
    }
    BitsDetermine(RotN(x, 24), x);
  }

  lemma {:induction false} RotNAdd(x: Mask, a: nat, b: nat)
    ensures RotN(x, a + b) == RotN(RotN(x, a), b)
  {
    if b > 0 {
      RotNAdd(x, a, b - 1);
    }
  }

  /** Only the number of steps modulo 24 matters. */
  lemma {:induction false} RotNMod(x: Mask, i: nat)
    ensures RotN(x, i) == RotN(x, i % 24)
  {
    if i >= 24 {
      assert (i - 24) % 24 == i % 24;
      RotNAdd(x, 24, i - 24);
      RotNPeriod(x);
      RotNMod(x, i - 24);
    }
  }

  /** Rotating 23 more times undoes one step, in either order: a bijection. */
  lemma RotL1Inverse(x: Mask)
    ensures RotN(RotL1(x), 23) == x
    ensures RotL1(RotN(x, 23)) == x
  {
    RotNAdd(x, 1, 23);
    RotNPeriod(x);
  }

  lemma RotL1Injective(x: Mask, y: Mask)
    requires RotL1(x) == RotL1(y)
    ensures x == y
  {
    RotL1Inverse(x);
    RotL1Inverse(y);
  }
}

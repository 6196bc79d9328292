/** Bytes, and Python's `&`, `|`, `<<` and `>>` on unbounded natural numbers, with the facts
    that tie masks and disjoint bit ranges to arithmetic. Everything is defined one bit at a
    time, which keeps every proof linear. */
module Bits {

  type Byte = b: int | 0 <= b < 256
  type Bytes = seq<Byte>

  function And(a: nat, b: nat): nat {
    if a == 0 || b == 0 then 0
    else 2 * And(a / 2, b / 2) + (if a % 2 == 1 && b % 2 == 1 then 1 else 0)
  }

  function Or(a: nat, b: nat): nat {
    if a == 0 then b
    else if b == 0 then a
    else 2 * Or(a / 2, b / 2) + (if a % 2 == 1 || b % 2 == 1 then 1 else 0)
  }

  function Shl(a: nat, k: nat): nat {
    if k == 0 then a else 2 * Shl(a, k - 1)
  }

  function Shr(a: nat, k: nat): nat {
    if k == 0 then a else Shr(a / 2, k - 1)
  }

  lemma OrStep(a: nat, b: nat)
    ensures Or(a, b) == 2 * Or(a / 2, b / 2) + (if a % 2 == 1 || b % 2 == 1 then 1 else 0)
  {
  }

  lemma OrZero(a: nat)
    ensures Or(a, 0) == a && Or(0, a) == a
  {
  }

  lemma AndStep(a: nat, b: nat)
    ensures And(a, b) == 2 * And(a / 2, b / 2) + (if a % 2 == 1 && b % 2 == 1 then 1 else 0)
  {
  }

  /** `|` works separately on the bits above and below any position. */
  lemma {:induction false} OrSplit(hi1: nat, lo1: nat, hi2: nat, lo2: nat, k: nat)
    requires lo1 < Shl(1, k) && lo2 < Shl(1, k)
    ensures Or(Shl(hi1, k) + lo1, Shl(hi2, k) + lo2) == Shl(Or(hi1, hi2), k) + Or(lo1, lo2)
  {
    if k == 0 {
    } else {
      OrSplit(hi1, lo1 / 2, hi2, lo2 / 2, k - 1);
      OrStep(Shl(hi1, k) + lo1, Shl(hi2, k) + lo2);
      OrStep(lo1, lo2);
    }
  }

  lemma {:induction false} ShlZero(k: nat)
    ensures Shl(0, k) == 0
  {
    if k == 0 {
    } else {
      ShlZero(k - 1);
    }
  }

  lemma {:induction false} ShlAdd(a: nat, b: nat, k: nat)
    ensures Shl(a + b, k) == Shl(a, k) + Shl(b, k)
  {
    if k == 0 {
    } else {
      ShlAdd(a, b, k - 1);
    }
  }

  lemma {:induction false} ShlShl(a: nat, j: nat, k: nat)
    ensures Shl(Shl(a, j), k) == Shl(a, j + k)
  {
    if k == 0 {
    } else {
      ShlShl(a, j, k - 1);
    }
  }

  lemma {:induction false} ShlMonotone(a: nat, b: nat, k: nat)
    requires a <= b
    ensures Shl(a, k) <= Shl(b, k)
  {
    if k == 0 {
    } else {
      ShlMonotone(a, b, k - 1);
    }
  }

  /** A shifted value or-ed with one that fits below it is their sum. */
  lemma OrDisjoint(hi: nat, lo: nat, k: nat)
    requires lo < Shl(1, k)
    ensures Or(Shl(hi, k), lo) == Shl(hi, k) + lo
    ensures Or(lo, Shl(hi, k)) == Shl(hi, k) + lo
  {
    OrSplit(hi, 0, 0, lo, k);
    OrSplit(0, lo, hi, 0, k);
    ShlZero(k);
    OrZero(hi);
    OrZero(lo);
  }

  /** A number is its bits above position `k` followed by its low `k` bits. */
  lemma {:induction false} AndLowMask(a: nat, k: nat)
    ensures Shl(1, k) >= 1
    ensures And(a, Shl(1, k) - 1) < Shl(1, k)
    ensures a == Shl(Shr(a, k), k) + And(a, Shl(1, k) - 1)
  {
    if k == 0 {
    } else {
      AndLowMask(a / 2, k - 1);
      AndStep(a, Shl(1, k) - 1);
    }
  }

  /** A single-bit mask extracts that bit in place. */
  lemma {:induction false} AndBit(a: nat, k: nat)
    ensures And(a, Shl(1, k)) == Shl(Shr(a, k) % 2, k)
  {
    AndStep(a, Shl(1, k));
    if k == 0 {
    } else {
      AndBit(a / 2, k - 1);
    }
  }

  // ---------- the positions the codecs use ----------

  lemma {:induction false} ShrShr(a: nat, j: nat, k: nat)
    ensures Shr(Shr(a, j), k) == Shr(a, j + k)
  {
    if j == 0 {
    } else {
      ShrShr(a / 2, j - 1, k);
    }
  }

  lemma ShiftedLeft(a: nat)
    ensures Shl(a, 3) == 8 * a && Shl(a, 4) == 16 * a && Shl(a, 5) == 32 * a
    ensures Shl(a, 7) == 128 * a && Shl(a, 8) == 256 * a
  {
    assert Shl(a, 1) == 2 * a;
    assert Shl(a, 2) == 4 * a;
    assert Shl(a, 4) == 4 * Shl(a, 2);
    assert Shl(a, 6) == 4 * Shl(a, 4);
  }

  lemma ShiftedRight(a: nat)
    ensures Shr(a, 3) == a / 8 && Shr(a, 4) == a / 16 && Shr(a, 5) == a / 32
    ensures Shr(a, 7) == a / 128 && Shr(a, 8) == a / 256
  {
    ShiftedRightByFour(a);
    ShrShr(a, 3, 1);
    ShrShr(a, 4, 1);
    ShrShr(a, 4, 3);
    ShrShr(a, 4, 4);
    ShiftedRightByFour(a / 16);
  }

  lemma ShiftedRightByFour(a: nat)
    ensures Shr(a, 1) == a / 2 && Shr(a, 3) == a / 8 && Shr(a, 4) == a / 16
  {
    assert Shr(a, 1) == Shr(a / 2, 0);
    ShrShr(a, 1, 1);
    assert Shr(a / 2, 1) == Shr(a / 4, 0);
    ShrShr(a, 2, 1);
    assert Shr(a / 4, 1) == Shr(a / 8, 0);
    ShrShr(a, 3, 1);
    assert Shr(a / 8, 1) == Shr(a / 16, 0);
  }

  lemma MaskedLow(a: nat)
    ensures And(a, 0x07) == a % 8 && And(a, 0x0F) == a % 16
  {
    ShiftedLeft(1);
    ShiftedRight(a);
    AndLowMask(a, 3); AndLowMask(a, 4);
    ShiftedLeft(a / 8); ShiftedLeft(a / 16);
  }

  lemma MaskedHigh(a: nat)
    ensures And(a, 0x7F) == a % 128 && And(a, 0xFF) == a % 256
  {
    ShiftedLeft(1);
    ShiftedRight(a);
    AndLowMask(a, 7); AndLowMask(a, 8);
    ShiftedLeft(a / 128); ShiftedLeft(a / 256);
  }

  lemma TestedBit(a: nat)
    ensures And(a, 0x10) != 0 <==> a / 16 % 2 == 1
    ensures And(a, 0x80) != 0 <==> a / 128 % 2 == 1
  {
    assert And(a, 0x10) == 16 * (a / 16 % 2) by {
      assert Shl(1, 4) == 16 by { ShiftedLeft(1); }
      assert Shr(a, 4) == a / 16 by { ShiftedRight(a); }
      AndBit(a, 4);
      ShiftedLeft(a / 16 % 2);
    }
    assert And(a, 0x80) == 128 * (a / 128 % 2) by {
      assert Shl(1, 7) == 128 by { ShiftedLeft(1); }
      assert Shr(a, 7) == a / 128 by { ShiftedRight(a); }
      AndBit(a, 7);
      ShiftedLeft(a / 128 % 2);
    }
  }

  // ---------- the operations, with what they mean at those positions ----------

  /** `a & mask` for a mask of low bits. */
  method Mask(a: nat, mask: nat) returns (r: nat)
    requires mask in {0x07, 0x0F, 0x7F, 0xFF}
    ensures r == a % (mask + 1)
  {
    MaskedLow(a);
    MaskedHigh(a);
    r := And(a, mask);
  }

  /** `a & bit != 0` */
  method TestBit(a: nat, bit: nat) returns (r: bool)
    requires bit in {0x10, 0x80}
    ensures r <==> a / bit % 2 == 1
  {
    TestedBit(a);
    r := And(a, bit) != 0;
  }

  /** `a >> k` */
  method ShiftRight(a: nat, k: nat) returns (r: nat)
    requires k in {3, 4, 5, 8}
    ensures r == if k == 3 then a / 8 else if k == 4 then a / 16 else if k == 5 then a / 32 else a / 256
  {
    ShiftedRight(a);
    r := Shr(a, k);
  }

  /** `(high << k) | low`, the bits of `low` lying below position `k`. */
  method ShiftOr(high: nat, k: nat, low: nat) returns (r: nat)
    requires k in {4, 5, 8}
    requires low < if k == 4 then 16 else if k == 5 then 32 else 256
    ensures r == (if k == 4 then high * 16 else if k == 5 then high * 32 else high * 256) + low
  {
    ShiftedLeft(1);
    ShiftedLeft(high);
    OrDisjoint(high, low, k);
    r := Or(Shl(high, k), low);
  }

  /** `a | bit`, the bit being clear in `a`. */
  method SetBit(a: nat, bit: nat) returns (r: nat)
    requires bit in {0x10, 0x80} && a / bit % 2 == 0
    ensures r == a + bit
  {
    ShiftedLeft(1);
    if bit == 0x10 {
      ShiftedLeft(a / 16);
      SetClearBit(a / 16, a % 16, bit, 4);
    } else {
      ShiftedLeft(a / 128);
      SetClearBit(a / 128, a % 128, bit, 7);
    }
    r := Or(a, bit);
  }

  lemma SetClearBit(high: nat, low: nat, bit: nat, k: nat)
    requires high % 2 == 0 && low < bit && bit == Shl(1, k)
    ensures Or(Shl(high, k) + low, bit) == Shl(high, k) + low + bit
  {
    OrStep(high, 1);
    OrZero(high / 2);
    OrZero(low);
    OrSplit(high, low, 1, 0, k);
    ShlAdd(high, 1, k);
  }
}

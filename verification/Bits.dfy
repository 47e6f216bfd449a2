/** 64-bit value sets, as cron fields are stored: bit v stands for the value v, bit 63 for a star. */
module Bits {
  const ALL_ONES: bv64 := 0xffff_ffff_ffff_ffff
  const STAR_BIT: bv64 := 0x8000_0000_0000_0000

  /** Go's `x << n`: the left operand shifted n times by 1. */
  function Shl(x: bv64, n: nat): bv64 {
    if n == 0 then x else Shl(x, n - 1) << 1
  }

  function Bit(i: nat): bv64 {
    Shl(1, i)
  }

  predicate Meets(k: bv64, bits: bv64) {
    k & bits != 0
  }

  predicate Has(bits: bv64, i: nat) {
    Meets(Bit(i), bits)
  }

  predicate Power(k: bv64) {
    k & (k - 1) == 0
  }

  lemma Distribute(a: bv64, b: bv64, k: bv64)
    ensures k & (a | b) == (k & a) | (k & b)
    ensures k & (a & b) == (k & a) & (k & b)
    ensures k & !a == k ^ (k & a)
  {
  }

  lemma OrZero(x: bv64, y: bv64)
    ensures x | y == 0 <==> x == 0 && y == 0
  {
  }

  lemma AllOrNothing(a: bv64, k: bv64)
    requires Power(k)
    ensures k & a == 0 || k & a == k
  {
  }

  lemma MaskOr(a: bv64, b: bv64, k: bv64)
    ensures Meets(k, a | b) <==> Meets(k, a) || Meets(k, b)
  {
    var x, y, z := k & a, k & b, k & (a | b);
    assert z == x | y by { Distribute(a, b, k); }
    OrZero(x, y);
  }

  lemma MaskAnd(a: bv64, b: bv64, k: bv64)
    requires Power(k)
    ensures Meets(k, a & b) <==> Meets(k, a) && Meets(k, b)
  {
    var x, y, z := k & a, k & b, k & (a & b);
    assert z == x & y by { Distribute(a, b, k); }
    assert x == 0 || x == k by { AllOrNothing(a, k); }
    assert y == 0 || y == k by { AllOrNothing(b, k); }
  }

  lemma MaskNot(a: bv64, k: bv64)
    requires Power(k) && k != 0
    ensures Meets(k, !a) <==> !Meets(k, a)
  {
    var x, z := k & a, k & !a;
    assert z == k ^ x by { Distribute(a, a, k); }
    assert x == 0 || x == k by { AllOrNothing(a, k); }
  }

  lemma MaskShift(x: bv64, k: bv64)
    requires Power(k) && k << 1 != 0
    ensures Meets(k << 1, x << 1) <==> Meets(k, x)
    ensures !Meets(1, x << 1)
  {
  }

  lemma PowersMeet(k: bv64, l: bv64)
    requires Power(k) && Power(l) && k != 0
    ensures Meets(k, l) <==> k == l
  {
  }

  lemma PowerShift(k: bv64)
    requires Power(k)
    ensures Power(k << 1)
  {
  }

  lemma {:induction false} BitIsPower(i: nat)
    ensures Power(Bit(i))
  {
    if i > 0 {
      BitIsPower(i - 1);
      PowerShift(Bit(i - 1));
    }
  }

  lemma TwoShifts(x: bv64)
    ensures (x << 1) << 1 == x << 2
    ensures (x << 2) << 2 == x << 4
    ensures (x << 4) << 4 == x << 8
  {
  }

  lemma TwoMore(i: nat)
    ensures Bit(i + 2) == Bit(i) << 2
  {
    assert Bit(i + 2) == Bit(i + 1) << 1;
    TwoShifts(Bit(i));
  }

  lemma EightMore(i: nat)
    ensures Bit(i + 8) == Bit(i) << 8
  {
    TwoMore(i);
    TwoMore(i + 2);
    TwoShifts(Bit(i));
    TwoMore(i + 4);
    TwoMore(i + 6);
    TwoShifts(Bit(i + 4));
  }

  lemma TopBit()
    ensures Bit(63) == STAR_BIT
  {
    assert Bit(1) == 2;
    assert Bit(3) == 8;
    assert Bit(5) == 32;
    assert Bit(7) == 128;
    EightMore(7);
    EightMore(15);
    EightMore(23);
    EightMore(31);
    EightMore(39);
    EightMore(47);
    EightMore(55);
  }

  lemma {:induction false} BitNonZero(i: nat)
    requires i < 64
    ensures Bit(i) != 0
    decreases 64 - i
  {
    if i == 63 {
      TopBit();
    } else {
      BitNonZero(i + 1);
      assert Bit(i + 1) == Bit(i) << 1;
    }
  }

  lemma {:induction false} BitsDiffer(i: nat, j: nat)
    requires i < j < 64
    ensures Bit(i) != Bit(j)
    decreases 64 - j
  {
    assert Bit(i + 1) == Bit(i) << 1;
    if j == 63 {
      TopBit();
      BitNonZero(i + 1);
    } else {
      BitsDiffer(i + 1, j + 1);
      assert Bit(j + 1) == Bit(j) << 1;
    }
  }

  lemma HasOr(a: bv64, b: bv64, i: nat)
    ensures Has(a | b, i) <==> Has(a, i) || Has(b, i)
  {
    MaskOr(a, b, Bit(i));
  }

  lemma HasAnd(a: bv64, b: bv64, i: nat)
    ensures Has(a & b, i) <==> Has(a, i) && Has(b, i)
  {
    BitIsPower(i);
    MaskAnd(a, b, Bit(i));
  }

  lemma HasNot(a: bv64, i: nat)
    requires i < 64
    ensures Has(!a, i) <==> !Has(a, i)
  {
    BitIsPower(i);
    BitNonZero(i);
    MaskNot(a, Bit(i));
  }

  lemma HasBit(j: nat, i: nat)
    requires i < 64 && j < 64
    ensures Has(Bit(j), i) <==> i == j
  {
    BitIsPower(i);
    BitIsPower(j);
    BitNonZero(i);
    if i < j {
      BitsDiffer(i, j);
    } else if j < i {
      BitsDiffer(j, i);
    }
    PowersMeet(Bit(i), Bit(j));
  }

  /** All ones shifted left by n are the bits from n up. */
  lemma {:induction false} HasShiftedOnes(n: nat, i: nat)
    requires i < 64
    ensures Has(Shl(ALL_ONES, n), i) <==> n <= i
  {
    BitNonZero(i);
    if n > 0 {
      var x := Shl(ALL_ONES, n - 1);
      if i > 0 {
        HasShiftedOnes(n - 1, i - 1);
        BitIsPower(i - 1);
        MaskShift(x, Bit(i - 1));
      } else {
        assert Power(1);
        MaskShift(x, 1);
      }
    }
  }

  lemma HasNothing()
    ensures forall i: nat :: !Has(0, i)
  {
  }

  /** The shift form of getBits. */
  function ShiftMask(min: nat, max: nat): bv64 {
    !Shl(ALL_ONES, max + 1) & Shl(ALL_ONES, min)
  }

  lemma HasBetween(min: nat, max: nat, above: bv64, below: bv64, from: bv64, v: nat)
    requires min <= max < 63 && v < 64
    requires above == Shl(ALL_ONES, max + 1) && below == !above && from == Shl(ALL_ONES, min)
    ensures Has(below & from, v) <==> min <= v <= max
  {
    HasAnd(below, from, v);
    HasNot(above, v);
    HasShiftedOnes(max + 1, v);
    HasShiftedOnes(min, v);
  }

  lemma HasShiftMask(min: nat, max: nat, mask: bv64, v: nat)
    requires min <= max < 63 && v < 64
    requires mask == ShiftMask(min, max)
    ensures Has(mask, v) <==> min <= v <= max
  {
    var above, from := Shl(ALL_ONES, max + 1), Shl(ALL_ONES, min);
    var below := !above;
    HasBetween(min, max, above, below, from, v);
  }

  lemma HasStar(i: nat)
    requires i < 64
    ensures Has(STAR_BIT, i) <==> i == 63
  {
    TopBit();
    HasBit(63, i);
  }
}

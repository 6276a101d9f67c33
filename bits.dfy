// Bit helpers of the solver (namespace detail of sudok_solver.hpp): population
// count, trailing-zero count, the index of a power of two, and the lowest set
// bit. All values are 16-bit words (uint16_t).
//
// The bit tests the solver spells out inline are named here (AtMostOneBit,
// SubMask, LowBit) so that proofs about counts can treat them as atoms; each
// small lemma below states one bit-level fact about them.

module Bits {

  /** `x & (x - 1) == 0`: x has at most one set bit (the solver's single-bit test). */
  predicate AtMostOneBit(x: bv16)
  {
    x & (x - 1) == 0
  }

  /** Every bit of x is also set in y. */
  predicate SubMask(x: bv16, y: bv16)
  {
    x & !y == 0
  }

  /** Bit 0 of x as a number. */
  function LowBit(x: bv16): nat
  {
    if x & 1 == 1 then 1 else 0
  }

  /** Number of set bits of a 16-bit word (popcount16). */
  function Popcount(x: bv16): nat
    decreases x
  {
    if x == 0 then 0 else LowBit(x) + Popcount(x >> 1)
  }

  /** Number of trailing zero bits of a non-zero word (the compiler builtin ctz). */
  function Ctz(x: bv16): nat
    requires x != 0
    decreases x
  {
    if x & 1 == 1 then 0 else Ctz(x >> 1) + 1
  }

  /** Position of the only set bit of a power of two, or -1 for any other word
      (get_power_of_two_runtime). */
  function PowerOfTwoIndex(x: bv16): int
  {
    if x == 0 || !AtMostOneBit(x) then -1 else Ctz(x)
  }

  /** The lowest set bit of x, computed as in two's complement: x & -x. */
  function LowestSetBit(x: bv16): bv16
  {
    x & -x
  }

  // ---------------------------------------------------------------------------
  // One-step bit facts

  lemma PopcountUnfold(x: bv16)
    ensures Popcount(x) == LowBit(x) + Popcount(x >> 1)
  {
    if x == 0 {
      assert x >> 1 == 0;
    }
  }

  lemma NonZeroShift(x: bv16)
    requires x != 0
    ensures LowBit(x) == 0 ==> x >> 1 != 0
    ensures x >> 1 < x
  {}

  lemma SubMaskShift(x: bv16, y: bv16)
    requires SubMask(x, y)
    ensures SubMask(x >> 1, y >> 1)
    ensures LowBit(x) <= LowBit(y)
    ensures y == 0 ==> x == 0
  {}

  lemma SingleOdd(x: bv16)
    requires LowBit(x) == 1
    ensures AtMostOneBit(x) <==> x >> 1 == 0
  {}

  lemma SingleEven(x: bv16)
    requires x != 0 && LowBit(x) == 0
    ensures AtMostOneBit(x) <==> AtMostOneBit(x >> 1)
  {}

  lemma RemoveHigherBit(x: bv16, b: bv16)
    requires b != 0 && AtMostOneBit(b) && SubMask(b, x) && b != 1
    ensures (x ^ b) >> 1 == (x >> 1) ^ (b >> 1)
    ensures LowBit(x ^ b) == LowBit(x)
    ensures b >> 1 != 0 && AtMostOneBit(b >> 1) && SubMask(b >> 1, x >> 1)
  {}

  lemma RemoveBitZero(x: bv16)
    requires LowBit(x) == 1
    ensures (x ^ 1) >> 1 == x >> 1 && LowBit(x ^ 1) == 0
  {}

  lemma ShiftStep(d: nat)
    requires 1 <= d < 16
    ensures ((1 as bv16) << d) >> 1 == (1 as bv16) << (d - 1)
  {}

  lemma ShiftEven(d: nat)
    requires 1 <= d < 16
    ensures ((1 as bv16) << d) & 1 == 0
  {}

  lemma MissingBitNonZero(x: bv16, y: bv16)
    requires SubMask(x, y) && x != y
    ensures y & !x != 0
  {}

  lemma MissingBitIn(x: bv16, y: bv16, d: bv16)
    requires SubMask(x, y) && d == y & !x && d != 0
    ensures SubMask(LowestSetBit(d), y)
  {}

  lemma MissingBitOut(x: bv16, y: bv16, d: bv16)
    requires SubMask(x, y) && d == y & !x && d != 0
    ensures SubMask(x, y ^ LowestSetBit(d))
  {}

  lemma ShiftIsSingle(d: nat)
    requires d < 16
    ensures (1 as bv16) << d != 0 && AtMostOneBit((1 as bv16) << d)
  {}

  lemma XorSubMask(x: bv16, p: bv16)
    requires SubMask(p, x)
    ensures SubMask(x ^ p, x)
  {}

  // ---------------------------------------------------------------------------
  // Population count

  /** A sub-mask never has more bits than its super-mask. */
  lemma {:induction false} PopcountSubMaskLe(x: bv16, y: bv16)
    requires SubMask(x, y)
    ensures Popcount(x) <= Popcount(y)
    decreases y
  {
    SubMaskShift(x, y);
    if y != 0 {
      PopcountUnfold(x);
      PopcountUnfold(y);
      NonZeroShift(y);
      PopcountSubMaskLe(x >> 1, y >> 1);
    }
  }

  /** A proper sub-mask has strictly fewer bits: some bit p of y is missing from
      x, and x is a sub-mask of y without p. */
  lemma PopcountSubMaskLt(x: bv16, y: bv16)
    requires SubMask(x, y) && x != y
    ensures Popcount(x) < Popcount(y)
  {
    MissingBitNonZero(x, y);
    var d := y & !x;
    var p := LowestSetBit(d);
    LowestSetBitShape(d);
    MissingBitIn(x, y, d);
    MissingBitOut(x, y, d);
    PopcountRemove(y, p);
    PopcountSubMaskLe(x, y ^ p);
  }

  /** Both directions of the comparison of a sub-mask with its super-mask. */
  lemma PopcountSubMask(x: bv16, y: bv16)
    requires SubMask(x, y)
    ensures Popcount(x) <= Popcount(y)
    ensures x != y ==> Popcount(x) < Popcount(y)
  {
    PopcountSubMaskLe(x, y);
    if x != y {
      PopcountSubMaskLt(x, y);
    }
  }

  /** Only the zero word has no set bit. */
  lemma {:induction false} PopcountZero(x: bv16)
    ensures Popcount(x) == 0 <==> x == 0
    decreases x
  {
    if x != 0 {
      NonZeroShift(x);
      PopcountUnfold(x);
      PopcountZero(x >> 1);
    }
  }

  /** On a non-zero word the single-bit test means exactly one bit is set. */
  lemma {:induction false} PopcountOne(x: bv16)
    requires x != 0
    ensures AtMostOneBit(x) <==> Popcount(x) == 1
    decreases x
  {
    NonZeroShift(x);
    PopcountUnfold(x);
    if LowBit(x) == 1 {
      SingleOdd(x);
      PopcountZero(x >> 1);
    } else {
      SingleEven(x);
      PopcountOne(x >> 1);
    }
  }

  /** The single-bit test fails exactly when two or more bits are set. */
  lemma PopcountMany(x: bv16)
    ensures !AtMostOneBit(x) <==> Popcount(x) >= 2
  {
    PopcountZero(x);
    if x != 0 {
      PopcountOne(x);
    } else {
      assert AtMostOneBit(x);
    }
  }

  /** The nine candidate bits 1..9 count nine. */
  lemma PopcountNine()
    ensures Popcount(0x3FE) == 9
  {
    assert Popcount(0x1) == 1;
    assert Popcount(0x3) == 2;
    assert Popcount(0x7) == 3;
    assert Popcount(0xF) == 4;
    assert Popcount(0x1F) == 5;
    assert Popcount(0x3F) == 6;
    assert Popcount(0x7F) == 7;
    assert Popcount(0xFF) == 8;
    assert Popcount(0x1FF) == 9;
  }

  /** A word within the nine candidate bits 1..9 has at most nine set bits. */
  lemma PopcountAtMostNine(x: bv16)
    requires SubMask(x, 0x3FE)
    ensures Popcount(x) <= 9
  {
    PopcountSubMask(x, 0x3FE);
    PopcountNine();
  }

  /** Clearing one set bit lowers the count by exactly one. */
  lemma {:induction false} PopcountRemove(x: bv16, b: bv16)
    requires b != 0 && AtMostOneBit(b) && SubMask(b, x)
    ensures Popcount(x) == Popcount(x ^ b) + 1
    decreases x
  {
    NonZeroShift(x);
    PopcountUnfold(x);
    PopcountUnfold(x ^ b);
    if b == 1 {
      RemoveBitZero(x);
    } else {
      RemoveHigherBit(x, b);
      PopcountRemove(x >> 1, b >> 1);
    }
  }

  // ---------------------------------------------------------------------------
  // Trailing zeros and the index of a power of two

  /** ctz inverts the shift `1 << d`. */
  lemma {:induction false} CtzOfShift(d: nat)
    requires d < 16
    ensures (1 as bv16) << d != 0
    ensures Ctz((1 as bv16) << d) == d
  {
    ShiftIsSingle(d);
    if d > 0 {
      ShiftStep(d);
      ShiftEven(d);
      CtzOfShift(d - 1);
    }
  }

  /** A power of two is `1 << ctz`. */
  lemma {:induction false} ShiftOfCtz(x: bv16)
    requires x != 0 && AtMostOneBit(x)
    ensures Ctz(x) < 16 && x == (1 as bv16) << Ctz(x)
    decreases x
  {
    if x & 1 == 0 {
      NonZeroShift(x);
      SingleEven(x);
      ShiftOfCtz(x >> 1);
      var k := Ctz(x >> 1);
      assert k < 15;
      ShiftStep(k + 1);
    }
  }

  /** get_power_of_two_runtime returns -1 exactly when the word does not have
      exactly one set bit, and otherwise the position of that bit. */
  lemma PowerOfTwoIndexSpec(x: bv16)
    ensures PowerOfTwoIndex(x) == -1 <==> Popcount(x) != 1
    ensures PowerOfTwoIndex(x) != -1 ==>
              0 <= PowerOfTwoIndex(x) < 16 && x == (1 as bv16) << PowerOfTwoIndex(x)
  {
    PopcountZero(x);
    if x != 0 {
      PopcountOne(x);
      if AtMostOneBit(x) {
        ShiftOfCtz(x);
      }
    }
  }

  /** The index of `1 << d` is d. */
  lemma PowerOfTwoIndexOfShift(d: nat)
    requires d < 16
    ensures PowerOfTwoIndex((1 as bv16) << d) == d
  {
    CtzOfShift(d);
    ShiftIsSingle(d);
  }

  // ---------------------------------------------------------------------------
  // Lowest set bit

  lemma LowestSetBitShape(x: bv16)
    requires x != 0
    ensures LowestSetBit(x) != 0
    ensures AtMostOneBit(LowestSetBit(x))
  {}

  lemma LowestSetBitIn(x: bv16)
    requires x != 0
    ensures SubMask(LowestSetBit(x), x)
  {}

  lemma LowestSetBitLowest(x: bv16)
    requires x != 0
    ensures x & (LowestSetBit(x) - 1) == 0
  {}

  /** `x & -x` is exactly one bit of x, and no bit of x lies below it. */
  lemma LowestSetBitSpec(x: bv16)
    requires x != 0
    ensures Popcount(LowestSetBit(x)) == 1
    ensures SubMask(LowestSetBit(x), x)
    ensures x & (LowestSetBit(x) - 1) == 0
  {
    LowestSetBitShape(x);
    LowestSetBitIn(x);
    LowestSetBitLowest(x);
    PopcountOne(LowestSetBit(x));
  }

  /** Removing the lowest set bit with `^` leaves a sub-mask with one bit fewer. */
  lemma LowestSetBitRemove(x: bv16)
    requires x != 0
    ensures SubMask(x ^ LowestSetBit(x), x)
    ensures Popcount(x ^ LowestSetBit(x)) + 1 == Popcount(x)
  {
    LowestSetBitIn(x);
    XorSubMask(x, LowestSetBit(x));
    LowestSetBitRemoveCount(x);
  }

  lemma LowestSetBitRemoveCount(x: bv16)
    requires x != 0
    ensures Popcount(x ^ LowestSetBit(x)) + 1 == Popcount(x)
  {
    LowestSetBitShape(x);
    LowestSetBitIn(x);
    PopcountRemove(x, LowestSetBit(x));
  }

  /** The bits of x that are not in m (`x & ~m`). */
  function Without(x: bv16, m: bv16): bv16
  {
    x & !m
  }

  /** x and y have no bit in common. */
  predicate Disjoint(x: bv16, y: bv16)
  {
    x & y == 0
  }

  lemma OrDisjoint(x: bv16, y: bv16, m: bv16)
    ensures Disjoint(x | y, m) <==> Disjoint(x, m) && Disjoint(y, m)
  {
    OrAnd(x, y, m);
    OrZero(x & m, y & m);
  }

  lemma OrAnd(x: bv16, y: bv16, m: bv16)
    ensures (x | y) & m == (x & m) | (y & m)
  {}

  lemma OrZero(x: bv16, y: bv16)
    ensures x | y == 0 <==> x == 0 && y == 0
  {}

  lemma OrNone(x: bv16)
    ensures x | 0 == x
  {}

  /** x with bit 0 set. */
  function WithFlag(x: bv16): bv16
  {
    1 | x
  }

  lemma WithFlagOr(x: bv16, m: bv16)
    ensures WithFlag(x) | m == WithFlag(x | m)
  {}

  lemma AndComm(x: bv16, y: bv16)
    ensures x & y == y & x
  {}

  lemma SubMaskOr(x: bv16, y: bv16, z: bv16)
    ensures SubMask(x, y) ==> SubMask(x, y | z)
    ensures SubMask(z, y | z)
  {}

  lemma SubMaskFlag(x: bv16)
    ensures SubMask(x, WithFlag(x))
  {}

  lemma WithoutDisjoint(x: bv16, m: bv16)
    ensures Disjoint(Without(x, m), m)
  {}

  /** A mask that misses m misses every sub-mask of m. */
  lemma DisjointSub(x: bv16, y: bv16, m: bv16)
    requires Disjoint(x, m) && SubMask(y, m)
    ensures Disjoint(x, y) && Disjoint(y, x)
  {}
}

/** upper_power_of_two (linear.hpp, UPPER POWER OF TWO): the 64-bit
    round-up bit trick, modelled on bv64 so that its decrement, shifts,
    ors and increment wrap exactly as size_t does. */
module PowerOfTwo {
  import opened Index

  /** p has exactly one bit set. */
  predicate IsPow2Bv(p: bv64) {
    p != 0 && p & (p - 1) == 0
  }

  /** Copies the highest set bit of y into every lower position. */
  function Smear(y: bv64): bv64 {
    var y := y | (y >> 1);
    var y := y | (y >> 2);
    var y := y | (y >> 4);
    var y := y | (y >> 8);
    var y := y | (y >> 16);
    y | (y >> 32)
  }

  /** The smear keeps every bit of y, yields a block of low ones, and sets
      no bit above the highest bit of y. */
  lemma SmearFillsBelow(y: bv64)
    ensures Smear(y) & y == y
    ensures Smear(y) & (Smear(y) + 1) == 0
    ensures y != 0 ==> Smear(y) >> 1 < y
  {
    SmearKeepsBits(y);
    SmearIsLowOnes(y);
    if y != 0 {
      SmearAddsNoHigherBit(y);
    }
  }

  lemma SmearKeepsBits(y: bv64)
    ensures Smear(y) & y == y
  {
  }

  lemma SmearIsLowOnes(y: bv64)
    ensures Smear(y) & (Smear(y) + 1) == 0
  {
  }

  lemma SmearAddsNoHigherBit(y: bv64)
    requires y != 0
    ensures Smear(y) >> 1 < y
  {
  }

  /** upper_power_of_two: decrement, smear, increment; all on size_t. */
  function UpperPowerOfTwo(x: bv64): bv64 {
    Smear(x - 1) + 1
  }

  /** For every size_t input the result is a power of two or, when the
      increment wraps, zero. */
  lemma UpperPowerOfTwoIsPow2OrZero(x: bv64)
    ensures UpperPowerOfTwo(x) & (UpperPowerOfTwo(x) - 1) == 0
  {
  }

  /** For 1 <= x <= 2^63 the result is a power of two ... */
  lemma UpperPowerOfTwoIsPow2(x: bv64)
    requires 1 <= x <= 0x8000_0000_0000_0000
    ensures IsPow2Bv(UpperPowerOfTwo(x))
  {
    DecrementInRange(x);
    SmearPlusOneIsPow2(x - 1);
  }

  /** ... that is at least x. */
  lemma UpperPowerOfTwoIsAtLeast(x: bv64)
    requires 1 <= x <= 0x8000_0000_0000_0000
    ensures UpperPowerOfTwo(x) >= x
  {
  }

  /** In range, x - 1 is below 2^63, and non-zero once x is at least 2. */
  lemma DecrementInRange(x: bv64)
    requires 1 <= x <= 0x8000_0000_0000_0000
    ensures (x - 1) >> 63 == 0
    ensures x >= 2 ==> x - 1 != 0
  {
  }

  /** Below 2^63 the smear plus one does not wrap, so it is a power of two. */
  lemma SmearPlusOneIsPow2(y: bv64)
    requires y >> 63 == 0
    ensures IsPow2Bv(Smear(y) + 1)
  {
  }

  /** A power of two that shares a bit with y is at most y. */
  lemma Pow2BitAtMost(q: bv64, y: bv64)
    requires IsPow2Bv(q) && q & y != 0
    ensures q <= y
  {
  }

  /** Below 2^63, half of the smear plus one is a power of two... */
  lemma HalfIsPow2(y: bv64)
    requires y != 0 && y >> 63 == 0
    ensures IsPow2Bv((Smear(y) + 1) >> 1)
  {
  }

  /** ... and it is a bit of y: the highest one. */
  lemma HalfIsBitOf(y: bv64)
    requires y != 0 && y >> 63 == 0
    ensures ((Smear(y) + 1) >> 1) & y != 0
  {
  }

  /** For 2 <= x <= 2^63 the next smaller power of two, half the result,
      is already below x: the result is the least power of two that is at
      least x. */
  lemma UpperPowerOfTwoIsLeast(x: bv64)
    requires 2 <= x <= 0x8000_0000_0000_0000
    ensures (UpperPowerOfTwo(x) >> 1) <= x - 1
  {
    DecrementInRange(x);
    HalfIsPow2(x - 1);
    HalfIsBitOf(x - 1);
    Pow2BitAtMost(UpperPowerOfTwo(x) >> 1, x - 1);
  }

  /** A power of two is rounded to itself; this is why rehash with a
      power-of-two count keeps exactly that count. */
  lemma UpperPowerOfTwoFixesPowers(p: bv64)
    requires IsPow2Bv(p)
    ensures UpperPowerOfTwo(p) == p
  {
  }

  /** In range, rounding leaves x unchanged exactly when x is already a
      power of two; 3, for one, is rounded to 4. */
  lemma UpperPowerOfTwoMovesNonPowers(x: bv64)
    requires 1 <= x <= 0x8000_0000_0000_0000
    ensures UpperPowerOfTwo(x) == x <==> IsPow2Bv(x)
    ensures UpperPowerOfTwo(3) == 4
  {
    UpperPowerOfTwoIsPow2(x);
    if IsPow2Bv(x) {
      UpperPowerOfTwoFixesPowers(x);
    }
  }

  /** x = 0, and every x above 2^63, wrap around to 0. */
  lemma UpperPowerOfTwoWraps(x: bv64)
    requires x == 0 || x > 0x8000_0000_0000_0000
    ensures UpperPowerOfTwo(x) == 0
  {
  }

  /** The value of the low k bits of p as a natural number. */
  function ValueOf(p: bv64, k: bv8): nat
    requires k <= 64
    decreases k
  {
    if k == 0 then 0 else (if p & 1 == 1 then 1 else 0) + 2 * ValueOf(p >> 1, k - 1)
  }

  /** The natural number a size_t value stands for. */
  function ToNat(p: bv64): nat {
    ValueOf(p, 64)
  }

  lemma {:induction false} ValueOfBound(p: bv64, k: bv8)
    requires k <= 64
    ensures ValueOf(p, k) < Pow2(k as nat)
    decreases k
  {
    if k != 0 {
      ValueOfBound(p >> 1, k - 1);
      assert (k - 1) as nat == k as nat - 1;
    }
  }

  lemma {:induction false} ValueOfZero(k: bv8)
    requires k <= 64
    ensures ValueOf(0, k) == 0
    decreases k
  {
    if k != 0 {
      ValueOfZero(k - 1);
    }
  }

  lemma ShiftStep(p: bv64, k: bv8)
    requires 1 <= k <= 64 && p >> k == 0
    ensures (p >> 1) >> (k - 1) == 0
  {
  }

  lemma ShiftNone(p: bv64)
    requires p >> (0 as bv8) == 0
    ensures p == 0
  {
  }

  lemma {:induction false} ValueOfPow2(p: bv64, k: bv8)
    requires k <= 64 && IsPow2Bv(p) && p >> k == 0
    ensures IsPow2(ValueOf(p, k))
    decreases k
  {
    if k == 0 {
      ShiftNone(p);
      assert false;
    } else if p & 1 == 1 {
      assert p == 1;
      ValueOfZero(k - 1);
    } else {
      assert IsPow2Bv(p >> 1);
      ShiftStep(p, k);
      ValueOfPow2(p >> 1, k - 1);
    }
  }

  /** A one-bit size_t value stands for a power of two that fits the
      kernel's bucket-count bound 2^63. */
  lemma ToNatPow2(p: bv64)
    requires IsPow2Bv(p)
    ensures IsPow2(ToNat(p)) && ToNat(p) <= SizeModulus / 2
  {
    ValueOfPow2(p, 64);
    ValueOfBound(p, 64);
    Pow2Sixty4();
    Pow2BelowModulus(ToNat(p));
  }
}

/** The 128-bit word primitives of SoftFloat: a 128-bit value is a pair of 64-bit words. */
module Primitives {
  import opened Words
  import opened PowersOfTwo

  const TWO127: int := 0x8000_0000_0000_0000_0000_0000_0000_0000
  const TWO128: int := 0x1_0000_0000_0000_0000_0000_0000_0000_0000

  datatype UInt128 = UInt128(v64: u64, v0: u64) {
    /** The value of the two words read as an unsigned integer. */
    function Val(): int {
      v64 * TWO64 + v0
    }

    /** The value of the two words read as a two's-complement integer. */
    function Signed(): int {
      if v64 < TWO63 then Val() else Val() - TWO128
    }

    /** The test of bit 63 of the high word. */
    predicate Negative() {
      v64 >= TWO63
    }
  }

  /** Left shift by 1 to 63 places: it multiplies by the power of two when no bit is lost. */
  function ShortShiftLeft128(a: UInt128, dist: nat): (z: UInt128)
    requires 1 <= dist <= 63
    ensures a.Val() * Pow2(dist) < TWO128 ==> z.Val() == a.Val() * Pow2(dist)
  {
    ShiftParts(a, dist);
    UInt128(a.v64 * Pow2(dist) % TWO64 + a.v0 / Pow2(64 - dist), a.v0 * Pow2(dist) % TWO64)
  }

  lemma ShiftParts(a: UInt128, dist: nat)
    requires 1 <= dist <= 63
    ensures var p, q := Pow2(dist), Pow2(64 - dist);
            && 0 <= a.v64 * p % TWO64 + a.v0 / q < TWO64
            && (a.Val() * p < TWO128 ==>
                  (a.v64 * p % TWO64 + a.v0 / q) * TWO64 + a.v0 * p % TWO64 == a.Val() * p)
  {
    var p, q := Pow2(dist), Pow2(64 - dist);
    Pow2Add(dist, 64 - dist);
    Pow2Values();
    ShiftWords(a.v64, a.v0, p, q);
  }

  lemma ShiftWords(hi: u64, lo: u64, p: int, q: int)
    requires p > 0 && q > 0 && p * q == TWO64
    ensures 0 <= hi * p % TWO64 + lo / q < TWO64
    ensures (hi * TWO64 + lo) * p < TWO128 ==>
              (hi * p % TWO64 + lo / q) * TWO64 + lo * p % TWO64 == (hi * TWO64 + lo) * p
  {
    MulModMul(hi, p, q);
    MulModMul(lo, p, q);
    var d, r := lo / q, lo % q;
    assert lo == d * q + r;
    MulCancelLt(d, p, q);
    assert lo * p == d * TWO64 + p * r;
    if (hi * TWO64 + lo) * p < TWO128 {
      assert hi * p * TWO64 + lo * p == (hi * TWO64 + lo) * p;
      assert lo * p >= 0;
      assert hi * p < TWO64;
    }
  }

  /** A sum or difference of 64-bit words, wrapped to 64 bits. */
  function Wrap64(x: int): u64
    requires -TWO64 <= x < 2 * TWO64
  {
    if x < 0 then x + TWO64 else if x >= TWO64 then x - TWO64 else x
  }

  function Add128(a: UInt128, b: UInt128): (z: UInt128)
    ensures z.Val() == a.Val() + b.Val() || z.Val() == a.Val() + b.Val() - TWO128
  {
    var v0 := Wrap64(a.v0 + b.v0);
    UInt128(Wrap64(a.v64 + b.v64 + if v0 < a.v0 then 1 else 0), v0)
  }

  function Sub128(a: UInt128, b: UInt128): (z: UInt128)
    ensures z.Val() == a.Val() - b.Val() || z.Val() == a.Val() - b.Val() + TWO128
  {
    UInt128(Wrap64(a.v64 - b.v64 - if a.v0 < b.v0 then 1 else 0), Wrap64(a.v0 - b.v0))
  }

  lemma AddSigned(a: UInt128, b: UInt128)
    requires -TWO127 <= a.Signed() + b.Signed() < TWO127
    ensures Add128(a, b).Signed() == a.Signed() + b.Signed()
  {
  }

  lemma SubSigned(a: UInt128, b: UInt128)
    requires -TWO127 <= a.Signed() - b.Signed() < TWO127
    ensures Sub128(a, b).Signed() == a.Signed() - b.Signed()
  {
  }

  predicate Le128(a: UInt128, b: UInt128)
    ensures Le128(a, b) <==> a.Val() <= b.Val()
  {
    a.v64 < b.v64 || (a.v64 == b.v64 && a.v0 <= b.v0)
  }

  /** The product of a 64-bit and a 32-bit value, shifted left by 32 places. */
  function Mul64ByShifted32To128(a: u64, b: u32): (z: UInt128)
    ensures z.Val() == a * b * TWO32
  {
    MulWords(a / TWO32, a % TWO32, b);
    var mid := a % TWO32 * b;
    UInt128(a / TWO32 * b + mid / TWO32, mid * TWO32 % TWO64)
  }

  lemma MulWords(hi: u32, lo: u32, b: u32)
    ensures 0 <= hi * b + lo * b / TWO32 < TWO64
    ensures (hi * b + lo * b / TWO32) * TWO64 + lo * b * TWO32 % TWO64 == (hi * TWO32 + lo) * b * TWO32
  {
    var mid := lo * b;
    MulLe(lo, TWO32 - 1, b);
    MulLe(hi, TWO32 - 1, b);
    MulLe(0, lo, b);
    MulLe(0, hi, b);
    MulModMul(mid, TWO32, TWO32);
    assert (hi * TWO32 + lo) * b == hi * b * TWO32 + mid;
  }

  /** What the digit loops rely on: recip is 2^63 / a rounded down (strictly below the quotient). */
  ghost predicate IsReciprocal(a: int, recip: int) {
    recip * a < TWO63 <= (recip + 1) * a
  }

  /** The 32-bit reciprocal estimate of a build with fast 64-by-32 division. */
  function ApproxRecip32(a: u32): (recip: u32)
    requires a >= 0x8000_0000
    ensures IsReciprocal(a, recip)
  {
    var recip := 0x7FFF_FFFF_FFFF_FFFF / a;
    RecipFits(a, recip);
    recip
  }

  lemma RecipFits(a: u32, recip: int)
    requires a >= 0x8000_0000 && recip == 0x7FFF_FFFF_FFFF_FFFF / a
    ensures 0 <= recip < TWO32 && IsReciprocal(a, recip)
  {
    assert recip * a <= 0x7FFF_FFFF_FFFF_FFFF < (recip + 1) * a;
    if recip >= TWO32 {
      MulLe(TWO32, recip, a);
    }
  }
}

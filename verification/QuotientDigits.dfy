/** The quotient-digit estimate shared by the remainder and the division. */
module QuotientDigits {
  import opened Words
  import opened PowersOfTwo
  import opened Primitives

  /** How far the product of the truncated remainder and the reciprocal can be from the true
      digit r * 2^29 / b, after both are scaled by 2^32 * b. */
  lemma QuotientEstimate(r: int, b: int, recip: int)
    requires TWO63 <= b < TWO64
    requires 0 <= r < 2 * b
    requires IsReciprocal(b / TWO32, recip)
    ensures 0 <= recip < TWO32
    ensures 0 <= r / 0x4_0000_0000 * recip < TWO63
    ensures r * 0x2000_0000_0000_0000 - 0x1_8000_0000 * b < r / 0x4_0000_0000 * recip * b
    ensures r / 0x4_0000_0000 * recip * b < r * 0x2000_0000_0000_0000 + 0x8000_0000 * b
  {
    var bh, bl, hi := b / TWO32, b % TWO32, r / 0x4_0000_0000;
    ReciprocalRange(bh, recip);
    MulRange(hi, recip, 0x8000_0000, TWO32);
    UpperEstimate(hi, bh, bl, recip);
    LowerEstimate(hi, bh, bl, recip);
  }

  lemma ReciprocalRange(a: int, recip: int)
    requires 0x8000_0000 <= a && IsReciprocal(a, recip)
    ensures 0 <= recip < TWO32
  {
    if recip >= TWO32 {
      MulLe(TWO32, recip, a);
    } else if recip < 0 {
      MulLe(recip + 1, 0, a);
    }
  }

  lemma MulRange(x: int, y: int, m: int, n: int)
    requires 0 <= x < m && 0 <= y < n
    ensures 0 <= x * y <= (m - 1) * (n - 1)
  {
    MulLe(0, x, y);
    MulLe(x, m - 1, y);
    MulLe(y, n - 1, m - 1);
  }

  lemma Expand(hi: int, bh: int, bl: int, recip: int)
    ensures hi * recip * (bh * TWO32 + bl) == hi * (recip * bh) * TWO32 + hi * (recip * bl)
  {
  }

  lemma UpperEstimate(hi: int, bh: int, bl: int, recip: int)
    requires 0 <= hi && 0 <= recip < TWO32 && 0x8000_0000 <= bh && 0 <= bl < TWO32
    requires IsReciprocal(bh, recip)
    requires hi * 0x2_0000_0000 < bh * TWO32 + bl
    ensures hi * recip * (bh * TWO32 + bl) < hi * TWO63 * TWO32 + 0x8000_0000 * (bh * TWO32 + bl)
  {
    Expand(hi, bh, bl, recip);
    MulLe(recip * bh, TWO63, hi);
    MulRange(recip, bl, TWO32, TWO32);
    MulLe(recip * bl, TWO64, hi);
  }

  lemma LowerEstimate(hi: int, bh: int, bl: int, recip: int)
    requires 0 <= hi < 0x8000_0000 && 0 <= recip < TWO32 && 0x8000_0000 <= bh && 0 <= bl < TWO32
    requires IsReciprocal(bh, recip)
    ensures hi * recip * (bh * TWO32 + bl) >= hi * TWO63 * TWO32 - 0x8000_0000 * (bh * TWO32 + bl)
  {
    Expand(hi, bh, bl, recip);
    MulLe(TWO63 - bh, recip * bh, hi);
    MulLe(0, recip, bl);
    MulLe(0, recip * bl, hi);
    MulLe(hi, 0x8000_0000, bh);
    assert (TWO63 - bh) * hi == hi * TWO63 - hi * bh;
  }

  /** The state of a digit loop: rem holds the remainder r of a division by b, shifted left by 32. */
  ghost predicate Holds(rem: UInt128, r: int) {
    rem.Signed() == r * TWO32
  }

  lemma HighWord(rem: UInt128, r: int)
    requires Holds(rem, r) && 0 <= r < 2 * TWO64
    ensures rem.v64 / 4 == r / 0x4_0000_0000 < TWO32
  {
  }

  lemma ProductRange(b: u64, q: nat)
    requires q <= 0x8000_0000
    ensures 0 <= q * b && b * q * TWO32 < TWO127
  {
    MulLe(q, 0x8000_0000, b);
    MulLe(0, b, q);
  }

  lemma ShiftRange(r: nat, dist: nat)
    requires r < 2 * TWO64 && 1 <= dist <= 29
    ensures r * TWO32 * Pow2(dist) == r * Pow2(dist) * TWO32
    ensures 0 <= r * Pow2(dist) && r * Pow2(dist) * TWO32 < TWO127
  {
    Pow2SmallValues();
    Pow2Monotone(dist, 29);
    ProductBelow(r, Pow2(dist));
  }

  lemma ProductBelow(r: nat, p: nat)
    requires r < 2 * TWO64 && p <= 0x2000_0000
    ensures r * TWO32 * p == r * p * TWO32
    ensures 0 <= r * p && r * p * TWO32 < TWO127
  {
    MulLe(p, 0x2000_0000, r);
    MulLe(0, p, r);
  }

  /** One step of the digit loop before the sign test. */
  lemma ShiftAndSubtract(rem: UInt128, r: nat, b: u64, q: u32, dist: nat)
    requires Holds(rem, r) && r < 2 * TWO64 && q <= 0x8000_0000 && 1 <= dist <= 29
    ensures Holds(Sub128(ShortShiftLeft128(rem, dist), Mul64ByShifted32To128(b, q)), r * Pow2(dist) - q * b)
  {
    ShiftRange(r, dist);
    ProductRange(b, q);
    SubSigned(ShortShiftLeft128(rem, dist), Mul64ByShifted32To128(b, q));
  }

  predicate InRange(r: int) {
    -0x8000_0000_0000_0000_0000_0000 <= r < 0x8000_0000_0000_0000_0000_0000
  }

  lemma SignTest(rem: UInt128, r: int)
    requires Holds(rem, r)
    ensures rem.Negative() <==> r < 0
    ensures InRange(r)
  {
  }

  method Add(x: UInt128, y: UInt128, ghost r: int, ghost s: int) returns (z: UInt128)
    requires Holds(x, r) && Holds(y, s) && InRange(r + s)
    ensures Holds(z, r + s)
  {
    AddSigned(x, y);
    z := Add128(x, y);
  }

  method Subtract(x: UInt128, y: UInt128, ghost r: int, ghost s: int) returns (z: UInt128)
    requires Holds(x, r) && Holds(y, s) && InRange(r - s)
    ensures Holds(z, r - s)
  {
    SubSigned(x, y);
    z := Sub128(x, y);
  }

  /** Shifts the remainder and takes q times the divisor off it. */
  method ShiftSubtract(rem: UInt128, b: u64, q: u32, dist: nat, ghost r: nat) returns (z: UInt128)
    requires Holds(rem, r) && r < 2 * TWO64 && q <= 0x8000_0000 && 1 <= dist <= 29
    ensures Holds(z, r * Pow2(dist) - q * b)
  {
    ShiftAndSubtract(rem, r, b, q, dist);
    z := ShortShiftLeft128(rem, dist);
    z := Sub128(z, Mul64ByShifted32To128(b, q));
  }

  /** The rounded digit of the loop is at most one below and less than two above the true one. */
  lemma RoundedDigit(r: int, b: int, recip: int)
    requires TWO63 <= b < TWO64 && 0 <= r < 2 * b && IsReciprocal(b / TWO32, recip)
    ensures 0 <= r / 0x4_0000_0000 * recip < TWO63
    ensures var q := (r / 0x4_0000_0000 * recip + 0x8000_0000) / TWO32;
            0 <= q <= 0x8000_0000 && -b < r * 0x2000_0000 - q * b < 2 * b
  {
    var q64 := r / 0x4_0000_0000 * recip;
    QuotientEstimate(r, b, recip);
    var q := (q64 + 0x8000_0000) / TWO32;
    MulLe(q * TWO32, q64 + 0x8000_0000, b);
    MulLe(q64 - 0x7FFF_FFFF, q * TWO32, b);
    DigitBounds(r, b, q64 * b, q * b);
  }

  lemma DigitBounds(r: int, b: int, eb: int, qb: int)
    requires r * 0x2000_0000_0000_0000 - 0x1_8000_0000 * b < eb
    requires eb < r * 0x2000_0000_0000_0000 + 0x8000_0000 * b
    requires qb * TWO32 <= eb + 0x8000_0000 * b && eb - 0x7FFF_FFFF * b <= qb * TWO32 && b > 0
    ensures -b < r * 0x2000_0000 - qb < 2 * b
  {
  }

  /** The truncated last digit, cut to n bits, is less than half above and at most two and a half below. */
  lemma TruncatedDigit(r: int, b: int, recip: int, n: nat)
    requires TWO63 <= b < TWO64 && 0 <= r < 2 * b && IsReciprocal(b / TWO32, recip) && 1 <= n <= 29
    ensures 0 <= r / 0x4_0000_0000 * recip < TWO63
    ensures var q := r / 0x4_0000_0000 * recip / TWO32 / Pow2(29 - n);
            0 <= q <= 0x8000_0000 && -b < 2 * (r * Pow2(n) - q * b) < 5 * b
  {
    QuotientEstimate(r, b, recip);
    Pow2Add(29 - n, n);
    Pow2SmallValues();
    TruncatedBounds(r, b, r / 0x4_0000_0000 * recip, Pow2(29 - n), Pow2(n));
  }

  lemma TruncatedBounds(r: nat, b: int, q64: nat, p: int, m: int)
    requires b > 0 && q64 < TWO63 && p > 0 && p * m == 0x2000_0000
    requires r * 0x2000_0000_0000_0000 - 0x1_8000_0000 * b < q64 * b
    requires q64 * b < r * 0x2000_0000_0000_0000 + 0x8000_0000 * b
    ensures var q := q64 / TWO32 / p;
            0 <= q <= 0x8000_0000 && -b < 2 * (r * m - q * b) < 5 * b
  {
    var e := q64 / TWO32;
    var q := e / p;
    QuotientRange(e, p);
    TruncationGap(q64, e, q, p, b);
    MulLe(1, p, b);
    ScaledDifference(p, r, m, q, b);
    CancelBounds(p, r * m - q * b, b);
  }

  lemma TruncationGap(q64: nat, e: nat, q: nat, p: int, b: int)
    requires b > 0 && e * TWO32 <= q64 < e * TWO32 + TWO32 && q * p <= e < q * p + p
    ensures q * p * b * TWO32 <= q64 * b < (q * p * b + p * b) * TWO32
  {
    var w := q * p;
    MulLe(w * TWO32, q64, b);
    MulLt(q64, (w + p) * TWO32, b);
    assert (w + p) * TWO32 * b == (w * b + p * b) * TWO32;
  }

  lemma QuotientRange(e: nat, p: int)
    requires p > 0 && e < 0x8000_0000
    ensures 0 <= e / p <= 0x8000_0000 && e / p * p <= e < e / p * p + p
  {
    DivMod(e, p);
    MulLe(1, p, e / p);
  }

  lemma ScaledDifference(p: int, r: int, m: int, q: int, b: int)
    ensures p * (r * m - q * b) == r * (p * m) - q * p * b
  {
  }

  lemma CancelBounds(p: int, x: int, b: int)
    requires p > 0 && b > 0
    requires -b < 2 * (p * x) && 2 * (p * x) < 3 * b + 2 * (p * b)
    ensures -b < 2 * x < 5 * b
  {
    MulLe(1, p, b);
    if 2 * x <= -b {
      MulLe(2 * x, -b, p);
    } else if 2 * x >= 5 * b {
      MulLe(5 * b, 2 * x, p);
    }
  }
}

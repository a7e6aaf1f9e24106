/** The quotient of two 80-bit extended values. */
module ExtF80Div {
  import opened Words
  import opened PowersOfTwo
  import opened Primitives
  import opened QuotientDigits
  import opened Rounding
  import opened ExtF80
  import opened RoundPack

  /** The state of the division's digit loop: the remainder r and the divisor 2 * sigB are counted in
      units of 2^31, because a dividend not below the divisor starts one place lower. */
  ghost predicate HoldsHalf(rem: UInt128, r: int) {
    rem.Signed() == r * 0x8000_0000
  }

  lemma HighWordHalf(rem: UInt128, r: int)
    requires HoldsHalf(rem, r) && 0 <= r < 4 * TWO64
    ensures rem.v64 / 4 == r / 0x8_0000_0000 < 0x8000_0000
  {
  }

  lemma SignTestHalf(rem: UInt128, r: int)
    requires HoldsHalf(rem, r)
    ensures rem.Negative() <==> r < 0
    ensures (rem.v64 == 0 && rem.v0 == 0) <==> r == 0
  {
  }

  function ShiftedBy32(sigB: u64): (z: UInt128)
    ensures HoldsHalf(z, 2 * sigB)
  {
    UInt128(sigB / 0x1_0000_0000, sigB * 0x1_0000_0000 % 0x1_0000_0000_0000_0000)
  }

  method AddDivisor(rem: UInt128, sigB: u64, ghost r: int) returns (z: UInt128)
    requires HoldsHalf(rem, r) && -2 * TWO64 <= r < 0
    ensures HoldsHalf(z, r + 2 * sigB)
  {
    AddSigned(rem, ShiftedBy32(sigB));
    z := Add128(rem, ShiftedBy32(sigB));
  }

  method SubtractDivisor(rem: UInt128, sigB: u64, ghost r: int) returns (z: UInt128)
    requires HoldsHalf(rem, r) && 0 <= r < 4 * TWO64
    ensures HoldsHalf(z, r - 2 * sigB)
  {
    SubSigned(rem, ShiftedBy32(sigB));
    z := Sub128(rem, ShiftedBy32(sigB));
  }

  /** Shifts the remainder by a digit and takes q times the divisor off it. */
  method ShiftSubtractHalf(rem: UInt128, sigB: u64, q: u32, ghost r: nat) returns (z: UInt128)
    requires HoldsHalf(rem, r) && r < 4 * TWO64 && q <= 0x8000_0000
    ensures HoldsHalf(z, r * 0x2000_0000 - q * (2 * sigB))
  {
    Pow2SmallValues();
    ProductRange(sigB, q);
    DoubledProduct(q, sigB);
    SubSigned(ShortShiftLeft128(rem, 29), Mul64ByShifted32To128(sigB, q));
    z := ShortShiftLeft128(rem, 29);
    z := Sub128(z, Mul64ByShifted32To128(sigB, q));
  }

  lemma DoubledProduct(q: int, b: int)
    ensures q * (2 * b) == 2 * (q * b) && b * q == q * b
  {
  }

  /** The rounded digit is at most one above and less than two below the true one. */
  lemma RoundedHalfDigit(r: int, b: int, recip: int)
    requires TWO63 <= b < TWO64 && 0 <= r < 4 * b && IsReciprocal(b / TWO32, recip)
    ensures 0 <= recip < TWO32 && 0 <= r / 0x8_0000_0000 * recip < TWO63
    ensures var q := (r / 0x8_0000_0000 * recip + 0x8000_0000) / TWO32;
            0 <= q <= 0x8000_0000 && -2 * b < r * 0x2000_0000 - q * (2 * b) < 4 * b
  {
    var bh, bl, hi := b / TWO32, b % TWO32, r / 0x8_0000_0000;
    ReciprocalRange(bh, recip);
    MulRange(hi, recip, 0x8000_0000, TWO32);
    UpperEstimate(hi, bh, bl, recip);
    LowerEstimate(hi, bh, bl, recip);
    RoundedProduct(r, b, hi, hi * recip);
  }

  lemma RoundedProduct(r: int, b: int, hi: int, q64: nat)
    requires hi * 0x8_0000_0000 <= r < hi * 0x8_0000_0000 + 0x8_0000_0000 && b >= TWO63
    requires hi * TWO63 * TWO32 - 0x8000_0000 * b <= q64 * b < hi * TWO63 * TWO32 + 0x8000_0000 * b
    ensures var q := (q64 + 0x8000_0000) / TWO32;
            -2 * b < r * 0x2000_0000 - q * (2 * b) < 4 * b
  {
    var q := (q64 + 0x8000_0000) / TWO32;
    MulLe(q * TWO32, q64 + 0x8000_0000, b);
    MulLe(q64 - 0x7FFF_FFFF, q * TWO32, b);
    DoubledProduct(q, b);
    HalfDigitBounds(r, b, hi, q64 * b, q * b);
  }

  lemma HalfDigitBounds(r: int, b: int, hi: int, eb: int, qb: int)
    requires hi * 0x8_0000_0000 <= r < hi * 0x8_0000_0000 + 0x8_0000_0000 && b >= TWO63
    requires eb < hi * TWO63 * TWO32 + 0x8000_0000 * b
    requires eb >= hi * TWO63 * TWO32 - 0x8000_0000 * b
    requires qb * TWO32 <= eb + 0x8000_0000 * b && eb - 0x7FFF_FFFF * b <= qb * TWO32
    ensures -2 * b < r * 0x2000_0000 - 2 * qb < 4 * b
  {
  }

  /** The digits collected so far: x scaled by the places consumed is sigZ divisors and a remainder. */
  ghost predicate Collected(x: int, scale: int, sigZ: int, d: int, r: int) {
    x * scale == sigZ * d + r
  }

  lemma NextDigit(x: int, scale: int, sigZ: int, d: int, r: int, q: int, r': int)
    requires Collected(x, scale, sigZ, d, r) && r * 0x2000_0000 == q * d + r'
    ensures Collected(x, scale * 0x2000_0000, sigZ * 0x2000_0000 + q, d, r')
  {
    MulAssoc(x, scale, 0x2000_0000);
    assert (sigZ * 0x2000_0000 + q) * d == sigZ * d * 0x2000_0000 + q * d;
  }

  lemma DigitsBelow(x: int, scale: int, sigZ: int, d: int, r: int)
    requires Collected(x, scale, sigZ, d, r) && 0 <= x < d && scale > 0 && 0 <= r
    ensures sigZ < scale
  {
    MulLt(x, d, scale);
    if sigZ >= scale {
      MulLe(scale, sigZ, d);
    }
  }

  /** The rounded estimate of the next 29 quotient bits. */
  method EstimateDigit(rem: UInt128, sigB: u64, recip32: u32, ghost r: nat) returns (q: u32)
    requires sigB >= TWO63 && IsReciprocal(sigB / TWO32, recip32)
    requires HoldsHalf(rem, r) && r < 4 * sigB
    ensures q <= 0x8000_0000 && -2 * (sigB as int) < r * 0x2000_0000 - q * (2 * sigB) < 4 * sigB
  {
    HighWordHalf(rem, r);
    RoundedHalfDigit(r, sigB, recip32);
    var q64: u64 := rem.v64 / 4 % 0x1_0000_0000 * recip32;
    q := (q64 + 0x8000_0000) / 0x1_0000_0000;
  }

  /** Takes digit q off the remainder, or one less when q was one too high. */
  method TakeDigit(rem: UInt128, sigB: u64, q: u32, ghost r: nat) returns (rem': UInt128, q': u32, ghost r': int)
    requires sigB >= TWO63 && HoldsHalf(rem, r) && r < 4 * sigB && q <= 0x8000_0000
    requires -2 * (sigB as int) < r * 0x2000_0000 - q * (2 * sigB) < 4 * sigB
    ensures HoldsHalf(rem', r') && 0 <= r' < 4 * sigB && r * 0x2000_0000 == q' * (2 * sigB) + r'
  {
    rem' := ShiftSubtractHalf(rem, sigB, q, r);
    q', r' := q, r * 0x2000_0000 - q * (2 * sigB);
    SignTestHalf(rem', r');
    if rem'.Negative() {
      DigitNotZero(r, q, sigB);
      rem' := AddDivisor(rem', sigB, r');
      q', r' := q' - 1, r' + 2 * sigB;
    }
  }

  lemma DigitNotZero(r: nat, q: nat, b: int)
    ensures r * 0x2000_0000 - q * (2 * b) < 0 ==> q > 0
    ensures (q - 1) * (2 * b) == q * (2 * b) - 2 * b
  {
  }

  /** Two digits into sigZ, and the estimate of a third one. */
  method CollectDigits(sigB: u64, rem0: UInt128, ghost x: nat)
    returns (rem: UInt128, sigZ: u64, q: u32, ghost r: int)
    requires sigB >= TWO63 && HoldsHalf(rem0, x) && x < 2 * sigB
    ensures HoldsHalf(rem, r) && 0 <= r < 4 * sigB && Collected(x, 0x400_0000_0000_0000, sigZ, 2 * sigB, r)
    ensures q <= 0x8000_0000 && -2 * (sigB as int) < r * 0x2000_0000 - q * (2 * sigB) < 4 * sigB
    ensures sigZ < 0x400_0000_0000_0000
  {
    var recip32 := ApproxRecip32(sigB / 0x1_0000_0000);
    sigZ := 0;
    var ix: int := 2;
    rem, r := rem0, x;
    ghost var scale := 1;
    while true
      invariant 0 <= ix <= 2
      invariant scale == if ix == 2 then 1 else if ix == 1 then 0x2000_0000 else 0x400_0000_0000_0000
      invariant HoldsHalf(rem, r) && 0 <= r < 4 * sigB
      invariant Collected(x, scale, sigZ, 2 * sigB, r) && sigZ < scale
      decreases ix
    {
      q := EstimateDigit(rem, sigB, recip32, r);
      ix := ix - 1;
      if ix < 0 {
        break;
      }
      ghost var r0 := r;
      rem, q, r := TakeDigit(rem, sigB, q, r);
      NextDigit(x, scale, sigZ, 2 * sigB, r0, q, r);
      scale := scale * 0x2000_0000;
      DigitsBelow(x, scale, sigZ * 0x2000_0000 + q, 2 * sigB, r);
      sigZ := sigZ * 0x2000_0000 + q;
    }
  }

  // ----- the last digit as rounding information

  /** The third digit q, with remainder rho after it, settles the significand and the extra word. */
  lemma LastDigitRepresents(x: nat, d: int, sigZ: nat, r: int, q: nat, rho: int, ql: nat)
    requires 0 < d && x < d && Collected(x, 0x400_0000_0000_0000, sigZ, d, r) && r * 0x2000_0000 == q * d + rho
    requires ql < 0x80_0000 && Settled(q % 0x80_0000, rho, d, ql)
    ensures 0 <= sigZ * 64 + q / 0x80_0000 < TWO64
    ensures Represents(sigZ * 64 + q / 0x80_0000, ql * 0x200_0000_0000, x * TWO64, d)
  {
    var s, low := sigZ * 64 + q / 0x80_0000, q % 0x80_0000;
    var r' := x * TWO64 - s * d;
    CombinedDigits(x, d, sigZ, r, q, rho);
    LowPart(low, rho, d, ql);
    DivModUnique(x * TWO64, d, s, r');
    DigitsBelow(x, TWO64, s, d, r');
    CompareLow(low, rho, d, ql, r');
  }

  /** How the low 23 bits of the last digit, and the remainder after it, are summarized in ql. */
  ghost predicate Settled(low: nat, rho: int, d: int, ql: nat) {
    || (ql == low && 0 < low % 0x40_0000 < 0x3F_FFFF && -d < rho < 2 * d)
    || (0 <= rho < d && ql == if rho != 0 && low % 2 == 0 then low + 1 else low)
  }

  lemma CombinedDigits(x: nat, d: int, sigZ: nat, r: int, q: nat, rho: int)
    requires Collected(x, 0x400_0000_0000_0000, sigZ, d, r) && r * 0x2000_0000 == q * d + rho
    ensures (x * TWO64 - (sigZ * 64 + q / 0x80_0000) * d) * 0x80_0000 == q % 0x80_0000 * d + rho
  {
    var qh, low := q / 0x80_0000, q % 0x80_0000;
    assert q * d == qh * d * 0x80_0000 + low * d by {
      assert q == qh * 0x80_0000 + low;
    }
    assert (sigZ * 64 + qh) * d == sigZ * d * 64 + qh * d;
  }

  lemma LowPart(low: nat, rho: int, d: int, ql: nat)
    requires d > 0 && low < 0x80_0000 && Settled(low, rho, d, ql)
    ensures 0 <= low * d + rho < 0x80_0000 * d
  {
    MultiplesApart(0, low, d);
    MultiplesApart(low, 0x80_0000, d);
  }

  lemma CompareLow(low: nat, rho: int, d: int, ql: nat, r': int)
    requires d > 0 && low < 0x80_0000 && ql < 0x80_0000 && Settled(low, rho, d, ql)
    requires r' * 0x80_0000 == low * d + rho
    ensures Compares(ql * 0x200_0000_0000, r', d)
  {
    MultiplesApart(0, low, d);
    MultiplesApart(low, 0x40_0000, d);
  }

  /** Corrects a digit that may be one off either way; the remainder ends within the divisor. */
  method CorrectDigit(rem: UInt128, sigB: u64, q0: u32, ghost r: nat)
    returns (rem': UInt128, q: u32, ghost rho: int)
    requires sigB >= TWO63 && HoldsHalf(rem, r) && r < 4 * sigB && q0 <= 0x8000_0000
    requires -2 * (sigB as int) < r * 0x2000_0000 - q0 * (2 * sigB) < 4 * sigB
    ensures r * 0x2000_0000 == q * (2 * sigB) + rho && 0 <= rho < 2 * sigB && q <= 0x8000_0001
    ensures (rem'.v64 != 0 || rem'.v0 != 0) <==> rho != 0
  {
    rem' := ShiftSubtractHalf(rem, sigB, q0, r);
    q, rho := q0, r * 0x2000_0000 - q0 * (2 * sigB);
    DigitNotZero(r, q0, sigB);
    DigitNotZero(r, q0 + 1, sigB);
    SignTestHalf(rem', rho);
    if rem'.Negative() {
      rem' := AddDivisor(rem', sigB, rho);
      q, rho := q - 1, rho + 2 * sigB;
    } else {
      DivisorBelow(sigB, rem', rho);
      if Le128(ShiftedBy32(sigB), rem') {
        rem' := SubtractDivisor(rem', sigB, rho);
        q, rho := q + 1, rho - 2 * sigB;
      }
    }
    SignTestHalf(rem', rho);
  }

  lemma DivisorBelow(sigB: u64, rem: UInt128, rho: nat)
    requires HoldsHalf(rem, rho)
    ensures Le128(ShiftedBy32(sigB), rem) <==> 2 * sigB <= rho
  {
  }

  lemma JamDigit(exact: nat, rho: int, d: int, q: nat)
    requires 0 <= rho < d && q == if rho != 0 && exact % 2 == 0 then exact + 1 else exact
    ensures q / 0x80_0000 == exact / 0x80_0000 && Settled(exact % 0x80_0000, rho, d, q % 0x80_0000)
  {
    var k, low := exact / 0x80_0000, exact % 0x80_0000;
    SameLowBit(k, low);
    if q != exact {
      DivModUnique(q, 0x80_0000, k, low + 1);
    }
  }

  lemma SameLowBit(k: nat, low: nat)
    requires low < 0x80_0000
    ensures (k * 0x80_0000 + low) % 2 == low % 2
    ensures low % 2 == 0 ==> low < 0x7F_FFFF
  {
  }

  lemma ExtraWord(q: nat)
    ensures q * 0x200_0000_0000 % TWO64 == q % 0x80_0000 * 0x200_0000_0000
  {
    MulModMul(q, 0x200_0000_0000, 0x80_0000);
  }

  lemma SkippedDigit(q: nat, rho: int, d: int)
    requires (q + 1) % 0x40_0000 >= 2 && -d < rho < 2 * d
    ensures Settled(q % 0x80_0000, rho, d, q % 0x80_0000)
  {
    var k, l := q / 0x40_0000, q % 0x40_0000;
    if l == 0x3F_FFFF {
      DivModUnique(q + 1, 0x40_0000, k + 1, 0);
    }
    DivModUnique(q % 0x80_0000, 0x40_0000, k % 2, l);
  }

  /** Corrects the last digit exactly when its low bits leave the rounding open, and jams the rest. */
  method RefineDigit(rem: UInt128, sigB: u64, q0: u32, ghost r: nat)
    returns (q: u32, ghost exact: nat, ghost rho: int)
    requires sigB >= TWO63 && HoldsHalf(rem, r) && r < 4 * sigB && q0 <= 0x8000_0000
    requires -2 * (sigB as int) < r * 0x2000_0000 - q0 * (2 * sigB) < 4 * sigB
    ensures r * 0x2000_0000 == exact * (2 * sigB) + rho
    ensures q / 0x80_0000 == exact / 0x80_0000
    ensures Settled(exact % 0x80_0000, rho, 2 * sigB, q % 0x80_0000)
  {
    if (q0 + 1) % 0x40_0000 < 2 {
      var rem';
      rem', q, rho := CorrectDigit(rem, sigB, q0, r);
      exact := q;
      if rem'.v64 != 0 || rem'.v0 != 0 {
        q := if q % 2 == 0 then q + 1 else q;
      }
      JamDigit(exact, rho, 2 * sigB, q);
    } else {
      q, exact, rho := q0, q0, r * 0x2000_0000 - q0 * (2 * sigB);
      SkippedDigit(q, rho, 2 * sigB);
    }
  }

  lemma QuotientWords(x: nat, d: int, high: nat, r: int, exact: nat, rho: int, q: nat)
    requires 0 < d <= 2 * x && x < d && Collected(x, 0x400_0000_0000_0000, high, d, r)
    requires r * 0x2000_0000 == exact * d + rho
    requires q / 0x80_0000 == exact / 0x80_0000 && Settled(exact % 0x80_0000, rho, d, q % 0x80_0000)
    ensures TWO63 <= high * 64 + q / 0x80_0000 < TWO64
    ensures Represents(high * 64 + q / 0x80_0000, q * 0x200_0000_0000 % 0x1_0000_0000_0000_0000, x * TWO64, d)
  {
    LastDigitRepresents(x, d, high, r, exact, rho, q % 0x80_0000);
    TopBit(x, d);
    ExtraWord(q);
  }

  lemma TopBit(x: nat, d: int)
    requires 0 < d <= 2 * x
    ensures x * TWO64 / d >= TWO63
  {
    DivMod(x * TWO64, d);
    if x * TWO64 / d < TWO63 {
      MulLe(x * TWO64 / d + 1, TWO63, d);
    }
  }

  /** Puts the three digits together. */
  method AssembleQuotient(high: u64, q: u32, ghost x: nat, ghost d: int, ghost r: int, ghost exact: nat, ghost rho: int)
    returns (sigZ: u64, sigZExtra: u64)
    requires 0 < d <= 2 * x && x < d && Collected(x, 0x400_0000_0000_0000, high, d, r)
    requires r * 0x2000_0000 == exact * d + rho
    requires q / 0x80_0000 == exact / 0x80_0000 && Settled(exact % 0x80_0000, rho, d, q % 0x80_0000)
    ensures Represents(sigZ, sigZExtra, x * TWO64, d) && sigZ >= TWO63
  {
    QuotientWords(x, d, high, r, exact, rho, q);
    sigZ := high * 64 + q / 0x80_0000;
    sigZExtra := q * 0x200_0000_0000 % 0x1_0000_0000_0000_0000;
  }

  /** The quotient of two normalized significands: the dividend x, at least half the divisor in
      units of 2^31, gives a 64-bit significand with its top bit set and an extra word that tells
      rounding what it needs about the rest. */
  method DivideSignificands(sigB: u64, rem0: UInt128, ghost x: nat) returns (sigZ: u64, sigZExtra: u64)
    requires sigB >= TWO63 && HoldsHalf(rem0, x) && x < 2 * sigB && sigB <= x
    ensures Represents(sigZ, sigZExtra, x * TWO64, 2 * sigB) && sigZ >= TWO63
  {
    var rem, high, q;
    ghost var r, exact, rho;
    rem, high, q, r := CollectDigits(sigB, rem0, x);
    q, exact, rho := RefineDigit(rem, sigB, q, r);
    sigZ, sigZExtra := AssembleQuotient(high, q, x, 2 * sigB, r, exact, rho);
  }

  // ----- the operation

  /** num / den * 2^exp is the quotient of the two magnitudes, in units of 2^-16446 (the weight of the
      last significand bit at exponent zero). */
  ghost predicate IsQuotient(magA: nat, magB: nat, exp: int, num: nat, den: int) {
    if exp <= 16446 then num * magB == den * magA * Pow2(16446 - exp)
    else num * magB * Pow2(exp - 16446) == den * magA
  }

  lemma QuotientOfSignificands(sigA: u64, expA: int, sigB: u64, expB: int, x: nat, exp: int)
    requires expA >= -62 && expB >= -62
    requires (x == 2 * sigA && exp == expA - expB + 0x3FFE) || (x == sigA && exp == expA - expB + 0x3FFF)
    ensures IsQuotient(Scaled(sigA, expA), Scaled(sigB, expB), exp, x * TWO64, 2 * sigB)
  {
    var c := if exp == expA - expB + 0x3FFE then 2 else 1;
    var pa, pb := Pow2(expA + 64), Pow2(expB + 64);
    assert x == c * sigA;
    Pow2Values();
    Pow2Add(64, expB + 64);
    PowersBalance(expA, expB, exp);
    if exp <= 16446 {
      var p := Pow2(16446 - exp);
      SwapFactors(c, sigA, sigB, TWO64, pb, 1, pa, p);
    } else {
      var p := Pow2(exp - 16446);
      SwapFactors(c, sigA, sigB, TWO64, pb, p, pa, 1);
    }
  }

  lemma PowersBalance(expA: int, expB: int, exp: int)
    requires expA >= -62 && expB >= -62
    requires exp == expA - expB + 0x3FFE || exp == expA - expB + 0x3FFF
    ensures var c := if exp == expA - expB + 0x3FFE then 2 else 1;
            if exp <= 16446 then c * Pow2(expB + 128) == 2 * (Pow2(expA + 64) * Pow2(16446 - exp))
            else c * (Pow2(expB + 128) * Pow2(exp - 16446)) == 2 * Pow2(expA + 64)
  {
    if exp <= 16446 {
      Pow2Add(expA + 64, 16446 - exp);
    } else {
      Pow2Add(expB + 128, exp - 16446);
    }
  }

  lemma SwapFactors(c: int, sigA: int, sigB: int, t: int, pb: int, p: int, pa: int, p': int)
    requires c * (t * pb * p) == 2 * (pa * p')
    ensures c * sigA * t * (sigB * pb) * p == 2 * sigB * (sigA * pa) * p'
  {
    assert c * sigA * t * (sigB * pb) * p == sigA * sigB * (c * (t * pb * p));
    assert 2 * sigB * (sigA * pa) * p' == sigA * sigB * (2 * (pa * p'));
  }

  function Infinity(sign: bool): ExtFloat80 {
    ExtFloat80(PackToExtF80UI64(sign, 0x7FFF), 0x8000_0000_0000_0000)
  }

  /** What the special answers are. */
  lemma SpecialAnswers(sign: bool)
    ensures Infinity(sign).Exp() == 0x7FFF && !Infinity(sign).NaN() && Infinity(sign).Sign() == sign
    ensures DefaultNaN.NaN()
    ensures var zero := ExtFloat80(PackToExtF80UI64(sign, 0), 0); zero.Finite() && zero.Sign() == sign && zero.Mag() == 0
  {
    Unpacked(sign, 0x7FFF, 0x8000_0000_0000_0000);
    Unpacked(sign, 0, 0);
  }

  /** The quotient of a by b. The special cases follow IEEE 754; otherwise num / den * 2^exp is the
      exact quotient, and the result is its rounding to the 80-bit format, with the exceptions of
      that rounding. */
  method ExtF80Div(s: FloatState, a: ExtFloat80, b: ExtFloat80)
    returns (result: Outcome, ghost exp: int, ghost num: nat, ghost den: int)
    modifies s`exceptionFlags
    ensures result.PropagatedNaN? <==> a.NaN() || b.NaN()
    ensures result.Number? && !a.Finite() && !b.Finite() ==>
              result.z == DefaultNaN && s.exceptionFlags == old(s.exceptionFlags) + {Invalid}
    ensures result.Number? && !a.Finite() && b.Finite() ==>
              result.z == Infinity(a.Sign() != b.Sign()) && s.exceptionFlags == old(s.exceptionFlags)
    ensures result.Number? && a.Finite() && !b.Finite() ==>
              result.z == ExtFloat80(PackToExtF80UI64(a.Sign() != b.Sign(), 0), 0)
              && s.exceptionFlags == old(s.exceptionFlags)
    ensures a.Finite() && b.Finite() && b.signif == 0 && a.signif == 0 ==>
              result.z == DefaultNaN && s.exceptionFlags == old(s.exceptionFlags) + {Invalid}
    ensures a.Finite() && b.Finite() && b.signif == 0 && a.signif > 0 ==>
              result.z == Infinity(a.Sign() != b.Sign())
              && s.exceptionFlags == old(s.exceptionFlags) + {Infinite}
    ensures a.Finite() && b.Finite() && b.signif > 0 && a.signif == 0 ==>
              result.z == ExtFloat80(PackToExtF80UI64(a.Sign() != b.Sign(), 0), 0)
              && s.exceptionFlags == old(s.exceptionFlags)
    ensures a.Finite() && b.Finite() && b.signif > 0 && a.signif > 0 ==>
              && den > 0 && TWO63 <= num / den < TWO64 && IsQuotient(a.Mag(), b.Mag(), exp, num, den)
              && result.z == Rounded(s.roundingMode, a.Sign() != b.Sign(), exp, num, den)
              && s.exceptionFlags == old(s.exceptionFlags)
                   + RoundedFlags(s.roundingMode, s.tininessBeforeRounding, a.Sign() != b.Sign(), exp, num, den)
  {
    exp, num, den := 0, 0, 1;
    var signZ := a.Sign() != b.Sign();
    var expA: int, sigA: u64, expB: int, sigB: u64 := a.Exp(), a.signif, b.Exp(), b.signif;
    if expA == 0x7FFF {
      if sigA % 0x8000_0000_0000_0000 != 0 {
        result := PropagatedNaN;
        return;
      }
      if expB == 0x7FFF {
        if sigB % 0x8000_0000_0000_0000 != 0 {
          result := PropagatedNaN;
          return;
        }
        s.RaiseFlags({Invalid});
        result := Number(DefaultNaN);
        return;
      }
      result := Number(Infinity(signZ));
      return;
    }
    if expB == 0x7FFF {
      if sigB % 0x8000_0000_0000_0000 != 0 {
        result := PropagatedNaN;
        return;
      }
      result := Number(ExtFloat80(PackToExtF80UI64(signZ, 0), 0));
      return;
    }
    if sigB == 0 {
      if sigA == 0 {
        s.RaiseFlags({Invalid});
        result := Number(DefaultNaN);
      } else {
        s.RaiseFlags({Infinite});
        result := Number(Infinity(signZ));
      }
      return;
    }
    var normB := Normalize(expB, sigB);
    if sigA == 0 {
      result := Number(ExtFloat80(PackToExtF80UI64(signZ, 0), 0));
      return;
    }
    var normA := Normalize(expA, sigA);
    var z;
    z, exp, num, den := FiniteQuotient(s, signZ, normA.exp, normA.sig, normB.exp, normB.sig);
    result := Number(z);
  }

  /** Division of normalized operands. */
  method FiniteQuotient(s: FloatState, signZ: bool, expA: int, sigA: u64, expB: int, sigB: u64)
    returns (z: ExtFloat80, ghost exp: int, ghost num: nat, ghost den: int)
    requires sigA >= TWO63 && sigB >= TWO63 && -62 <= expA && -62 <= expB
    modifies s`exceptionFlags
    ensures den > 0 && TWO63 <= num / den < TWO64
    ensures IsQuotient(Scaled(sigA, expA), Scaled(sigB, expB), exp, num, den)
    ensures z == Rounded(s.roundingMode, signZ, exp, num, den)
    ensures s.exceptionFlags == old(s.exceptionFlags)
              + RoundedFlags(s.roundingMode, s.tininessBeforeRounding, signZ, exp, num, den)
  {
    var expZ := expA - expB + 0x3FFF;
    var rem: UInt128;
    ghost var x: nat;
    if sigA < sigB {
      expZ := expZ - 1;
      rem, x := ShiftedBy32(sigA), 2 * sigA;
    } else {
      rem, x := ShiftedLeft31(sigA), sigA;
    }
    var sigZ, sigZExtra := DivideSignificands(sigB, rem, x);
    QuotientOfSignificands(sigA, expA, sigB, expB, x, expZ);
    exp, num, den := expZ, x * TWO64, 2 * sigB;
    z := RoundPackToExtF80(s, signZ, expZ, sigZ, sigZExtra, num, den);
  }

  function ShiftedLeft31(sig: u64): (z: UInt128)
    ensures HoldsHalf(z, sig)
  {
    Pow2SmallValues();
    ShortShiftLeft128(UInt128(0, sig), 31)
  }

  // ----- what the packed quotient means

  /** The weight of the last significand bit of the result: its exponent, or 1 below the normal range. */
  function ResultWeight(exp: int): nat {
    if exp > 0 then exp else 1
  }

  /** The quotient of the magnitudes counted in units of a weight: numerator and denominator. */
  ghost function UnitsOver(mag: nat, weight: nat): nat {
    MulLe(0, mag, Pow2(if weight < 16446 then 16446 - weight else 0));
    mag * Pow2(if weight < 16446 then 16446 - weight else 0)
  }

  ghost function UnitsUnder(mag: nat, weight: nat): nat {
    MulLe(0, mag, Pow2(if weight < 16446 then 0 else weight - 16446));
    mag * Pow2(if weight < 16446 then 0 else weight - 16446)
  }

  lemma QuotientInUnits(magA: nat, magB: nat, exp: int, num: nat, den: int)
    requires IsQuotient(magA, magB, exp, num, den)
    ensures num * UnitsUnder(magB, ResultWeight(exp))
            == UnitsOver(magA, ResultWeight(exp)) * (den * Pow2(Deficit(exp)))
  {
    var w := ResultWeight(exp);
    if exp <= 16446 {
      Pow2Add(16446 - w, Deficit(exp));
      assert 16446 - w + Deficit(exp) == 16446 - exp;
      Regroup(magA, Pow2(16446 - w), den, Pow2(Deficit(exp)));
    } else {
      MulAssoc(num, magB, Pow2(exp - 16446));
    }
  }

  lemma Regroup(a: int, p: int, d: int, q: int)
    ensures a * p * (d * q) == d * a * (p * q)
  {
  }

  /** Division is correctly rounded: unless the rounding overflows, the result is the exact quotient
      rounded, as the mode asks, to an integer number of units in its last place. The units are those
      of a 64-bit significand, but never finer than the smallest subnormal. */
  lemma QuotientIsCorrectlyRounded(mode: RoundingMode, sign: bool, magA: nat, magB: nat, exp: int, num: nat, den: int)
    returns (units: nat)
    requires magB > 0 && den > 0 && IsQuotient(magA, magB, exp, num, den)
    requires TWO63 <= num / den < TWO64 && Fits(mode, sign, exp, num, den)
    ensures var w, z := ResultWeight(exp), Rounded(mode, sign, exp, num, den);
            && z.Finite() && z.Sign() == sign && z.Mag() == Scaled(units, w)
            && UnitsUnder(magB, w) > 0
            && IsRounding(mode, Negate(sign, UnitsOver(magA, w)), UnitsUnder(magB, w), Negate(sign, units))
  {
    var w := ResultWeight(exp);
    var over, under := UnitsOver(magA, w), UnitsUnder(magB, w);
    MulLt(0, magB, Pow2(if w < 16446 then 0 else w - 16446));
    RoundedValue(mode, sign, exp, num, den);
    QuotientInUnits(magA, magB, exp, num, den);
    RoundMagSameRatio(mode, sign, num, den * Pow2(Deficit(exp)), over, under);
    units := RoundMag(mode, sign, over, under);
    RoundMagIsRounding(mode, sign, over, under);
  }

  /** When it overflows, the exact quotient rounded to 64 bits as if exponents had no bound exceeds the largest
      finite number, and the result is infinity or that number, as the mode and the sign ask. */
  lemma OverflowedQuotient(mode: RoundingMode, sign: bool, magA: nat, magB: nat, exp: int, num: nat, den: int)
    returns (units: nat)
    requires magB > 0 && den > 0 && exp > 0 && IsQuotient(magA, magB, exp, num, den) && TWO63 <= num / den < TWO64
    ensures UnitsUnder(magB, exp) > 0 && TWO63 <= units <= TWO64
    ensures IsRounding(mode, Negate(sign, UnitsOver(magA, exp)), UnitsUnder(magB, exp), Negate(sign, units))
    ensures Fits(mode, sign, exp, num, den) <==> Scaled(units, exp) <= Scaled(TWO64 - 1, 0x7FFE)
    ensures Scaled(units, exp) > Scaled(TWO64 - 1, 0x7FFE) ==>
      Rounded(mode, sign, exp, num, den)
        == if mode.NearEven? || mode.NearMaxMag? || (mode.Min? && sign) || (mode.Max? && !sign)
           then ExtFloat80(if sign then 0xFFFF else 0x7FFF, 0x8000_0000_0000_0000)
           else ExtFloat80(if sign then 0xFFFE else 0x7FFE, 0xFFFF_FFFF_FFFF_FFFF)
  {
    var over, under := UnitsOver(magA, exp), UnitsUnder(magB, exp);
    MulLt(0, magB, Pow2(if exp < 16446 then 0 else exp - 16446));
    QuotientInUnits(magA, magB, exp, num, den);
    RoundMagSameRatio(mode, sign, num, den, over, under);
    units := RoundMag(mode, sign, over, under);
    RoundMagIsRounding(mode, sign, over, under);
    FitsIff(mode, sign, exp, num, den);
    NormalizedRounding(mode, sign, num, den);
    if !Fits(mode, sign, exp, num, den) {
      OverflowResult(mode, sign, exp, num, den);
    }
  }
}

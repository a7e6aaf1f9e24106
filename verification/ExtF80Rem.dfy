/** The IEEE remainder of two 80-bit extended values. */
module ExtF80Rem {
  import opened Words
  import opened PowersOfTwo
  import opened Primitives
  import opened QuotientDigits
  import opened Rounding
  import opened ExtF80
  import opened RoundPack

  /** r is what is left of x after subtracting n times b. */
  ghost predicate IsResidue(x: int, b: int, n: int, r: int) {
    r == x - n * b
  }

  /** Shifting a residue by m places and subtracting q more divisors. */
  lemma NextResidue(x: int, b: int, n: int, r: int, m: nat, q: int)
    requires IsResidue(x, b, n, r) && m >= 1
    ensures IsResidue(x * Pow2(m), b, n * Pow2(m) + q, r * Pow2(m) - q * b)
    ensures (n * Pow2(m) + q) % 2 == q % 2
  {
    ScaledResidue(x, b, n, Pow2(m), q);
    EvenPart(n, Pow2(m - 1), q);
  }

  lemma ScaledResidue(x: int, b: int, n: int, p: int, q: int)
    ensures (x - n * b) * p - q * b == x * p - (n * p + q) * b
  {
  }

  lemma EvenPart(n: int, h: int, q: int)
    ensures (n * (2 * h) + q) % 2 == q % 2
  {
    assert n * (2 * h) == 2 * (n * h);
  }

  lemma OtherQuotient(x: int, b: int, n: int, r: int)
    requires IsResidue(x, b, n, r)
    ensures IsResidue(x, b, n - 1, r + b) && IsResidue(x, b, n + 1, r - b)
  {
    assert (n - 1) * b == n * b - b && (n + 1) * b == n * b + b;
  }

  lemma ShiftedOperand(a: int, done: nat, m: nat)
    ensures a * Pow2(done) * Pow2(m) == a * Pow2(done + m)
  {
    Pow2Add(done, m);
    MulAssoc(a, Pow2(done), Pow2(m));
  }

  /** One pass of the digit loop: 29 more quotient bits, corrected when the estimate was one too high. */
  method DigitStep(rem: UInt128, sigB: u64, shiftedSigB: UInt128, q64: u64, ghost r: nat, ghost recip: int)
    returns (rem': UInt128, ghost r': int, ghost k: int)
    requires sigB >= TWO63 && Holds(shiftedSigB, sigB) && IsReciprocal(sigB / TWO32, recip)
    requires Holds(rem, r) && r < 2 * sigB && q64 == r / 0x4_0000_0000 * recip
    ensures Holds(rem', r') && 0 <= r' < 2 * sigB && IsResidue(r * 0x2000_0000, sigB, k, r')
  {
    RoundedDigit(r, sigB, recip);
    Pow2SmallValues();
    var q: u32 := (q64 + 0x8000_0000) / 0x1_0000_0000;
    rem' := ShiftSubtract(rem, sigB, q, 29, r);
    r', k := r * 0x2000_0000 - q * sigB, q;
    rem' := CorrectDown(rem', shiftedSigB, r', sigB);
    if r' < 0 {
      OtherQuotient(r * 0x2000_0000, sigB, k, r');
      r', k := r' + sigB, k - 1;
    }
  }

  /** Adds the divisor back when the remainder is negative. */
  method CorrectDown(rem: UInt128, shiftedSigB: UInt128, ghost r: int, ghost b: int) returns (rem': UInt128)
    requires Holds(rem, r) && Holds(shiftedSigB, b) && 0 <= b < TWO64 && 0 <= r + b && r < 2 * TWO64
    ensures Holds(rem', if r < 0 then r + b else r)
  {
    rem' := rem;
    SignTest(rem, r);
    if rem.Negative() {
      rem' := Add(rem, shiftedSigB, r, b);
    }
  }

  /** Reduces sigA * 2^expDiff modulo sigB, 29 quotient bits at a time and a shorter last digit. The loop
      leaves expDiff at left, after so many passes. */
  method ReduceDigits(sigA: u64, sigB: u64, shiftedSigB: UInt128, expDiff: nat)
    returns (rem: UInt128, q: u32, ghost r: int, ghost n: int, ghost left: int, ghost passes: nat)
    requires sigA >= TWO63 && sigB >= TWO63 && expDiff >= 1
    requires Holds(shiftedSigB, sigB)
    ensures Holds(rem, r) && 0 < 2 * r + sigB < 6 * sigB
    ensures IsResidue(sigA * Pow2(expDiff), sigB, n, r) && q % 2 == n % 2
    ensures q <= 0x8000_0000
    ensures -29 <= left <= -1 && left == expDiff - 30 - 29 * passes
  {
    var recip32 := ApproxRecip32(sigB / 0x1_0000_0000);
    var diff: int := expDiff - 30;
    left, passes := diff, 0;
    rem := ShiftedLeft32(sigA);
    r, n := sigA, 0;
    ghost var done: nat := 0;
    ghost var x: nat := sigA;
    var q64: u64;
    while true
      invariant diff == left == expDiff - 30 - done && left >= -29 && done == 29 * passes
      invariant Holds(rem, r) && 0 <= r < 2 * sigB
      invariant x == sigA * Pow2(done) && IsResidue(x, sigB, n, r)
      decreases diff
    {
      q64 := QuotientProduct(rem, recip32, sigB, r);
      if diff < 0 {
        break;
      }
      ghost var k, r';
      rem, r', k := DigitStep(rem, sigB, shiftedSigB, q64, r, recip32);
      Pow2SmallValues();
      NextResidue(x, sigB, n, r, 29, k);
      ShiftedOperand(sigA, done, 29);
      r, n := r', n * 0x2000_0000 + k;
      x, done, passes, left := x * 0x2000_0000, done + 29, passes + 1, left - 29;
      diff := diff - 29;
    }
    rem, q := LastDigit(rem, sigB, q64, diff, r, recip32);
    NextResidue(x, sigB, n, r, left + 30, q);
    ShiftedOperand(sigA, done, left + 30);
    r, n := r * Pow2(left + 30) - q * sigB, n * Pow2(left + 30) + q;
  }

  function ShiftedLeft32(sig: u64): (z: UInt128)
    ensures Holds(z, sig)
  {
    Pow2SmallValues();
    ShortShiftLeft128(UInt128(0, sig), 32)
  }

  /** The 64-bit product of the remainder's leading bits and the reciprocal. */
  method QuotientProduct(rem: UInt128, recip32: u32, ghost sigB: u64, ghost r: nat) returns (q64: u64)
    requires sigB >= TWO63 && IsReciprocal(sigB / TWO32, recip32)
    requires Holds(rem, r) && r < 2 * sigB
    ensures q64 == r / 0x4_0000_0000 * recip32
  {
    HighWord(rem, r);
    RoundedDigit(r, sigB, recip32);
    q64 := rem.v64 / 4 % 0x1_0000_0000 * recip32;
  }

  /** The final digit: only the expDiff + 30 bits that are still due. */
  method LastDigit(rem: UInt128, sigB: u64, q64: u64, expDiff: int, ghost r: nat, ghost recip: int)
    returns (rem': UInt128, q: u32)
    requires sigB >= TWO63 && IsReciprocal(sigB / TWO32, recip) && -29 <= expDiff <= -1
    requires Holds(rem, r) && r < 2 * sigB && q64 == r / 0x4_0000_0000 * recip
    ensures q <= 0x8000_0000
    ensures Holds(rem', r * Pow2(expDiff + 30) - q * sigB)
    ensures 0 < 2 * (r * Pow2(expDiff + 30) - q * sigB) + sigB < 6 * sigB
  {
    TruncatedDigit(r, sigB, recip, expDiff + 30);
    q := q64 / 0x1_0000_0000 / Pow2(-expDiff - 1);
    rem' := ShiftSubtract(rem, sigB, q, expDiff + 30, r);
  }

  /** r is r0 less j times b, for the few j that occur. */
  ghost predicate SteppedDown(r0: int, b: int, j: int, r: int) {
    -1 <= j <= 3 &&
    r == r0 - if j == -1 then -b else if j == 0 then 0 else if j == 1 then b else if j == 2 then 2 * b else 3 * b
  }

  lemma SteppedResidue(x: int, b: int, n0: int, r0: int, j: int, r: int)
    requires IsResidue(x, b, n0, r0) && SteppedDown(r0, b, j, r)
    ensures IsResidue(x, b, n0 + j, r)
  {
    assert (n0 + j) * b == n0 * b + j * b;
  }

  /** Subtracts the divisor until the remainder goes below zero; altRem is the remainder just before. */
  method StepBelowZero(rem0: UInt128, q0: nat, shiftedSigB: UInt128, ghost b: int, ghost r0: int)
    returns (rem: UInt128, altRem: UInt128, q: nat, ghost r: int, ghost j: int)
    requires 0 < b < 2 * TWO64 && Holds(shiftedSigB, b)
    requires Holds(rem0, r0) && 0 <= 2 * r0 < 5 * b
    ensures Holds(rem, r) && Holds(altRem, r + b) && -b <= r < 0
    ensures SteppedDown(r0, b, j, r) && q == q0 + j
  {
    rem, q, r, j := rem0, q0, r0, 0;
    while true
      invariant Holds(rem, r) && 0 <= r && 0 <= 2 * r0 < 5 * b
      invariant SteppedDown(r0, b, j, r) && q == q0 + j
      decreases 3 - j
    {
      altRem := rem;
      q := q + 1;
      rem := Subtract(rem, shiftedSigB, r, b);
      r, j := r - b, j + 1;
      SignTest(rem, r);
      if rem.Negative() {
        break;
      }
    }
  }

  /** Of the two remainders around zero, takes the one of least magnitude; q even keeps rem on a tie. */
  method ChooseNearer(rem0: UInt128, altRem: UInt128, q: nat, ghost b: int, ghost r0: int)
    returns (rem: UInt128, ghost r: int)
    requires 0 < b < 2 * TWO64 && Holds(rem0, r0) && Holds(altRem, r0 + b) && -b <= r0 < 0
    ensures Holds(rem, r) && (r == r0 || r == r0 + b)
    ensures 2 * Abs(r) <= b && (2 * Abs(r) == b ==> (r == r0 <==> q % 2 == 0))
  {
    rem, r := rem0, r0;
    var meanRem := Add(rem, altRem, r0, r0 + b);
    MeanTest(meanRem, r0 + (r0 + b));
    if meanRem.Negative() || (meanRem.v64 == 0 && meanRem.v0 == 0 && q % 2 == 1) {
      rem, r := altRem, r0 + b;
    }
  }

  lemma MeanTest(meanRem: UInt128, r: int)
    requires Holds(meanRem, r)
    ensures meanRem.Negative() <==> r < 0
    ensures (meanRem.v64 == 0 && meanRem.v0 == 0) <==> r == 0
  {
  }

  /** The remainder of least magnitude, the one with even quotient on a tie: j divisors below rem0. */
  method SelectRemainder(rem0: UInt128, q0: nat, shiftedSigB: UInt128, ghost b: int, ghost r0: int)
    returns (rem: UInt128, ghost r: int, ghost j: int)
    requires 0 < b < 2 * TWO64 && Holds(shiftedSigB, b)
    requires Holds(rem0, r0) && 0 < 2 * r0 + b < 6 * b
    ensures Holds(rem, r) && SteppedDown(r0, b, j, r)
    ensures 2 * Abs(r) <= b && (2 * Abs(r) == b ==> (q0 + j) % 2 == 0)
  {
    var q, altRem := q0, rem0;
    rem, j := rem0, 0;
    ghost var r' := r0;
    SignTest(rem, r0);
    if rem.Negative() {
      altRem := Add(rem, shiftedSigB, r0, b);
    } else {
      rem, altRem, q, r', j := StepBelowZero(rem, q, shiftedSigB, b, r0);
    }
    rem, r := ChooseNearer(rem, altRem, q, b, r');
    if r != r' {
      j := j - 1;
    }
  }

  // ----- from the digit loop to the packed result

  /** The remainder words w, standing for m * 2^32 at exponent exp, hold a value of the format: they
      are an integer k of its units. */
  lemma PackArgument(m: nat, exp: int, e: int, num: nat, c: nat) returns (k: nat)
    requires m < TWO64 && 0 <= exp + 63 && exp <= 0x7FFE && exp + 32 - 128 <= e <= exp + 32
    requires num == m * TWO32 * Pow2(exp + 32 - e) && (e > 0 ==> num >= TWO127)
    requires Scaled(m, exp) == c * Pow2(65)
    ensures e <= 0x7FFE
    ensures num == k * TWO64 * Pow2(Deficit(e))
    ensures Scaled(k, if e > 0 then e else 1) == Scaled(m, exp)
  {
    if e > 0 {
      EnoughShift(m, exp + 32 - e, num);
      NormalArgument(m, exp - e);
      k := m * Pow2(exp - e);
      ScaledShift(m, exp - e, exp);
      assert Pow2(Deficit(e)) == 1;
    } else {
      k := c;
      SubnormalArgument(m, exp, e, num, c);
    }
  }

  lemma NormalArgument(m: nat, n: nat)
    ensures m * Pow2(n) >= 0
    ensures m * TWO32 * Pow2(n + 32) == m * Pow2(n) * TWO64
  {
    Pow2SmallValues();
    Pow2Add(32, n);
    MulAssoc(m, TWO32, Pow2(n + 32));
    MulAssoc(m, Pow2(n), TWO64);
    MulLe(0, m, Pow2(n));
  }

  lemma EnoughShift(m: nat, n: nat, num: nat)
    requires m < TWO64 && num == m * TWO32 * Pow2(n) && num >= TWO127
    ensures n >= 32
  {
    if n < 32 {
      Pow2Below32(n);
      MulLe(Pow2(n), 0x8000_0000, m * TWO32);
    }
  }

  lemma Pow2Below32(n: nat)
    requires n < 32
    ensures Pow2(n) <= 0x8000_0000
  {
    Pow2SmallValues();
    Pow2Monotone(n, 31);
  }

  lemma SubnormalArgument(m: nat, exp: int, e: int, num: nat, c: nat)
    requires -63 <= exp && e <= 0 && e <= exp + 32
    requires num == m * TWO32 * Pow2(exp + 32 - e)
    requires Scaled(m, exp) == c * Pow2(65)
    ensures num == c * TWO64 * Pow2(1 - e)
    ensures Scaled(c, 1) == Scaled(m, exp)
  {
    Pow2Values();
    var d: nat := -e;
    // m * 2^32 * 2^(exp + 32 - e) = m * 2^(exp + 64) * 2^-e
    Pow2Add(32, exp + 32 - e);
    MulAssoc(m, TWO32, Pow2(exp + 32 - e));
    Pow2Add(exp + 64, d);
    MulAssoc(m, Pow2(exp + 64), Pow2(d));
    // c * 2^65 * 2^-e = c * 2^64 * 2^(1 - e)
    Pow2Add(65, d);
    MulAssoc(c, Pow2(65), Pow2(d));
    Pow2Add(64, 1 - e);
    MulAssoc(c, TWO64, Pow2(1 - e));
  }

  /** In units of the result's exponent: x - n * b, scaled, is the difference of the two values. */
  lemma ScaledResult(x: int, b: int, n: int, r: int, u: int)
    requires IsResidue(x, b, n, r)
    ensures r * u == x * u - n * (b * u)
  {
    assert (x - n * b) * u == x * u - n * b * u;
    MulAssoc(n, b, u);
  }

  lemma ScaledNearest(r: int, b: int, n: int, u: int)
    requires b > 0 && u > 0 && 2 * Abs(r) <= b && (2 * Abs(r) == b ==> n % 2 == 0)
    ensures b * u > 0 && Abs(r * u) == Abs(r) * u
    ensures 2 * Abs(r * u) <= b * u && (2 * Abs(r * u) == b * u ==> n % 2 == 0)
  {
    MulLt(0, b, u);
    MulLe(2 * Abs(r), b, u);
    if 2 * Abs(r) < b {
      MulLt(2 * Abs(r), b, u);
    }
    SignedProduct(r < 0, Abs(r), u);
    MulLe(0, Abs(r), u);
  }

  /** A remainder of at most half the divisor, even quotient on a tie, is the IEEE remainder. */
  lemma NearestQuotient(x: int, den: int, n: int)
    requires den > 0 && 2 * Distance(x, den, n) <= den && (2 * Distance(x, den, n) == den ==> n % 2 == 0)
    ensures IsRounding(NearEven, x, den, n)
  {
    NearestIff(x, den, n);
    forall k: int | IsNearest(x, den, k) && k != n
      ensures n % 2 == 0
    {
      NearestIff(x, den, k);
      NearestTie(x, den, n, k);
    }
  }

  function ShiftedLeft33(sig: u64): (z: UInt128)
    ensures Holds(z, 2 * sig)
  {
    Pow2SmallValues();
    assert Pow2(33) == 2 * Pow2(32);
    ShortShiftLeft128(UInt128(0, sig), 33)
  }

  lemma InUnits(x: int, b: int, n: int, r: int, u: int, valueA: int, valueB: int)
    requires b > 0 && u > 0 && IsResidue(x, b, n, r) && 2 * Abs(r) <= b && (2 * Abs(r) == b ==> n % 2 == 0)
    requires x * u == valueA && b * u == valueB
    ensures NearestResult(valueA, valueB, n, r * u)
  {
    ScaledResult(x, b, n, r, u);
    ScaledNearest(r, b, n, u);
  }

  /** The first phase: a remainder between -1/2 and 5/2 of the divisor, in units of 2^exp. */
  method Reduce(sigA: u64, expA: int, sigB: u64, expB: int)
    returns (rem: UInt128, q: u32, shiftedSigB: UInt128, exp: int, ghost x: int, ghost b: int, ghost r: int, ghost n: int)
    requires sigA >= TWO63 && sigB >= TWO63 && -62 <= expB && expA >= expB - 1
    ensures 0 < b < 2 * TWO64 && Holds(shiftedSigB, b) && Holds(rem, r) && 0 < 2 * r + b < 6 * b
    ensures expB - 1 <= exp <= expB && exp <= expA
    ensures x == sigA * Pow2(expA - exp) && b == sigB * Pow2(expB - exp)
    ensures IsResidue(x, b, n, r) && q % 2 == n % 2 && q <= 0x8000_0000
  {
    var expDiff := expA - expB;
    if expDiff < 1 {
      rem, q, shiftedSigB, exp, b, r := ReduceClose(sigA, expA, sigB, expB);
      x, n := sigA, q;
    } else {
      shiftedSigB := ShiftedLeft32(sigB);
      exp, x, b := expB, sigA * Pow2(expDiff), sigB;
      ghost var left, passes;
      rem, q, r, n, left, passes := ReduceDigits(sigA, sigB, shiftedSigB, expDiff);
    }
  }

  /** The operands whose exponents differ by at most one step: no digit loop is needed. */
  method ReduceClose(sigA: u64, expA: int, sigB: u64, expB: int)
    returns (rem: UInt128, q: u32, shiftedSigB: UInt128, exp: int, ghost b: int, ghost r: int)
    requires sigA >= TWO63 && sigB >= TWO63 && expB - 1 <= expA <= expB
    ensures exp == expA && b == sigB * Pow2(expB - exp)
    ensures b < 2 * TWO64 && Holds(shiftedSigB, b) && Holds(rem, r) && 0 <= r && r < 2 * b
    ensures q <= 1 && IsResidue(sigA, b, q, r)
  {
    rem := ShiftedLeft32(sigA);
    r := sigA;
    if expA != expB {
      exp := expB - 1;
      shiftedSigB := ShiftedLeft33(sigB);
      q, b := 0, 2 * sigB;
    } else {
      exp := expB;
      shiftedSigB := ShiftedLeft32(sigB);
      b := sigB;
      q := if sigB <= sigA then 1 else 0;
      if q != 0 {
        rem := Subtract(rem, shiftedSigB, sigA, sigB);
        r := sigA - sigB;
      }
    }
  }

  /** The reduction of a at least half as large as b, up to the remainder of least magnitude. */
  method ReduceAndSelect(sigA: u64, expA: int, sigB: u64, expB: int)
    returns (rem: UInt128, exp: int, ghost r: int, ghost n: int)
    requires sigA >= TWO63 && sigB >= TWO63 && -62 <= expB && expA >= expB - 1
    ensures expB - 1 <= exp <= expB && Holds(rem, r) && Abs(r) < TWO64
    ensures NearestResult(Scaled(sigA, expA), Scaled(sigB, expB), n, r * Pow2(exp + 64))
  {
    var q, shiftedSigB;
    ghost var x, b, r0, j;
    rem, q, shiftedSigB, exp, x, b, r0, n := Reduce(sigA, expA, sigB, expB);
    rem, r, j := SelectRemainder(rem, q, shiftedSigB, b, r0);
    ghost var n0 := n;
    n := n0 + j;
    SameParity(q, n0, j);
    SelectedInUnits(sigA, expA, sigB, expB, exp, x, b, n0, r0, n, r);
  }

  lemma SameParity(q: int, n: int, j: int)
    requires q % 2 == n % 2
    ensures (q + j) % 2 == (n + j) % 2
  {
  }

  lemma SelectedInUnits(sigA: u64, expA: int, sigB: u64, expB: int, exp: int, x: int, b: int, n0: int, r0: int, n: int, r: int)
    requires exp >= -63 && exp <= expB && exp <= expA
    requires x == sigA * Pow2(expA - exp) && b == sigB * Pow2(expB - exp) && b > 0
    requires IsResidue(x, b, n0, r0) && SteppedDown(r0, b, n - n0, r)
    requires 2 * Abs(r) <= b && (2 * Abs(r) == b ==> n % 2 == 0)
    ensures NearestResult(Scaled(sigA, expA), Scaled(sigB, expB), n, r * Pow2(exp + 64))
  {
    SteppedResidue(x, b, n0, r0, n - n0, r);
    ScaledShift(sigA, expA - exp, expA);
    ScaledShift(sigB, expB - exp, expB);
    assert Scaled(x, exp) == x * Pow2(exp + 64) && Scaled(b, exp) == b * Pow2(exp + 64);
    InUnits(x, b, n, r, Pow2(exp + 64), Scaled(x, exp), Scaled(b, exp));
  }

  /** r is valueA - n * valueB with n the integer nearest to the quotient, ties to even. */
  ghost predicate NearestResult(valueA: int, valueB: int, n: int, r: int) {
    valueB > 0 && r == valueA - n * valueB && 2 * Abs(r) <= valueB && (2 * Abs(r) == valueB ==> n % 2 == 0)
  }

  /** Takes the magnitude of the selected remainder, then normalizes and packs it: the value that
      comes out is exact, and no exception is raised. */
  method PackRemainder(s: FloatState, signA: bool, rem0: UInt128, exp: int, ghost r: int, ghost c: nat) returns (z: ExtFloat80)
    requires Holds(rem0, r) && Abs(r) < TWO64 && -63 <= exp <= 0x7FFE
    requires Scaled(Abs(r), exp) == c * Pow2(65)
    modifies s`exceptionFlags
    ensures z.Finite() && z.Mag() == Scaled(Abs(r), exp)
    ensures z.Sign() == if r < 0 then !signA else signA
    ensures s.exceptionFlags == old(s.exceptionFlags)
  {
    var signRem, rem := MagnitudeWords(signA, rem0, r);
    ghost var e, num;
    var expZ := if rem.v64 != 0 || rem.v0 != 0 then exp + 32 else 0;
    z, e, num := NormRoundPackToExtF80(s, signRem, expZ, rem.v64, rem.v0);
    ExactPacking(s.roundingMode, s.tininessBeforeRounding, signRem, Abs(r), exp, e, num, c);
  }

  method MagnitudeWords(signA: bool, rem0: UInt128, ghost r: int) returns (signRem: bool, rem: UInt128)
    requires Holds(rem0, r) && Abs(r) < TWO64
    ensures rem.Val() == Abs(r) * TWO32 && signRem == (signA != (r < 0))
    ensures (rem.v64 == 0 && rem.v0 == 0) <==> r == 0
  {
    signRem, rem := signA, rem0;
    SignTest(rem, r);
    if rem.Negative() {
      signRem := !signRem;
      rem := Subtract(UInt128(0, 0), rem, 0, r);
    }
    HeldValue(rem, Abs(r));
  }

  lemma ExactPacking(mode: RoundingMode, before: bool, sign: bool, m: nat, exp: int, e: int, num: nat, c: nat)
    requires m < TWO64 && -63 <= exp <= 0x7FFE && Scaled(m, exp) == c * Pow2(65)
    requires num / TWO64 < TWO64 && (e > 0 ==> num >= TWO127)
    requires m == 0 ==> e <= 0 && num == 0
    requires m != 0 ==> exp + 32 - 128 <= e <= exp + 32 && num == m * TWO32 * Pow2(exp + 32 - e)
    ensures var z := Rounded(mode, sign, e, num, TWO64);
            z.Finite() && z.Sign() == sign && z.Mag() == Scaled(m, exp)
    ensures RoundedFlags(mode, before, sign, e, num, TWO64) == {}
  {
    if m == 0 {
      ZeroScaled(exp);
      ZeroScaled(1);
      ExactValue(mode, before, sign, e, num, 0);
    } else {
      var k := PackArgument(m, exp, e, num, c);
      ExactValue(mode, before, sign, e, num, k);
    }
  }

  lemma HeldValue(rem: UInt128, m: nat)
    requires Holds(rem, m)
    ensures rem.Val() == m * TWO32
    ensures (rem.v64 == 0 && rem.v0 == 0) <==> m == 0
  {
  }

  lemma ZeroScaled(exp: int)
    requires exp >= -64
    ensures Scaled(0, exp) == 0
  {
  }

  /** Packs a canonical copy of a normalized value, undoing the normalization of a subnormal. */
  function CopyA(signA: bool, expA: int, sigA: u64): ExtFloat80
    requires -62 <= expA <= 0x7FFE
  {
    QuotientBound(sigA, Pow2(if expA < 1 then 1 - expA else 0));
    if expA < 1 then ExtFloat80(PackToExtF80UI64(signA, 0), sigA / Pow2(1 - expA))
    else ExtFloat80(PackToExtF80UI64(signA, expA), sigA)
  }

  lemma CopyIsExact(signA: bool, sig: u64, weight: nat, shift: nat, sigA: u64)
    requires 1 <= weight <= 0x7FFE && weight - shift >= -62 && sigA == sig * Pow2(shift)
    ensures var z := CopyA(signA, weight - shift, sigA);
            z.Finite() && z.Sign() == signA && z.Mag() == Scaled(sig, weight)
  {
    if shift < weight {
      Unpacked(signA, weight - shift, sigA);
      ScaledShift(sig, shift, weight);
    } else {
      CopySubnormal(signA, sig, weight, 1 + shift - weight, sigA);
    }
  }

  lemma CopySubnormal(signA: bool, sig: u64, weight: nat, n: nat, sigA: u64)
    requires weight >= 1 && 1 <= n <= 63 && sigA == sig * Pow2(weight - 1 + n)
    ensures sigA / Pow2(n) < TWO64
    ensures var z := ExtFloat80(PackToExtF80UI64(signA, 0), sigA / Pow2(n));
            z.Finite() && z.Sign() == signA && z.Mag() == Scaled(sig, weight)
  {
    QuotientBound(sigA, Pow2(n));
    ShiftedBack(sig, weight - 1, n, sigA);
    Unpacked(signA, 0, sigA / Pow2(n));
    ScaledShift(sig, weight - 1, weight);
  }

  lemma ShiftedBack(sig: nat, m: nat, n: nat, sigA: nat)
    requires sigA == sig * Pow2(m + n)
    ensures sigA / Pow2(n) == sig * Pow2(m)
  {
    Pow2Add(m, n);
    MulAssoc(sig, Pow2(m), Pow2(n));
    DivModUnique(sigA, Pow2(n), sig * Pow2(m), 0);
  }

  lemma SmallerThanHalf(sigA: u64, expA: int, sigB: u64, expB: int)
    requires sigB >= TWO63 && expA >= -62 && expA < expB - 1
    ensures 2 * Scaled(sigA, expA) <= Scaled(sigB, expB)
  {
    var d := expB - expA;
    ScaledShift(sigB, d, expB);
    Pow2Monotone(2, d);
    MulLe(4, Pow2(d), sigB);
    MulLe(2 * sigA, sigB * Pow2(d), Pow2(expA + 64));
  }

  /** Both magnitudes are integers in units of 2^65, so is the remainder. */
  lemma RemainderUnits(sigA: nat, weightA: nat, sigB: nat, weightB: nat, n: int, v: int) returns (c: nat)
    requires weightA >= 1 && weightB >= 1
    requires v == Scaled(sigA, weightA) - n * Scaled(sigB, weightB)
    ensures Abs(v) == c * Pow2(65)
  {
    ScaledShift(sigA, weightA - 1, weightA);
    ScaledShift(sigB, weightB - 1, weightB);
    c := DifferenceOfMultiples(sigA * Pow2(weightA - 1), sigB * Pow2(weightB - 1), n, Pow2(65));
  }

  lemma DifferenceOfMultiples(ka: int, kb: int, n: int, p: int) returns (c: nat)
    requires p > 0
    ensures Abs(ka * p - n * (kb * p)) == c * p
  {
    var k := ka - n * kb;
    MulAssoc(n, kb, p);
    assert k * p == ka * p - n * kb * p;
    c := Abs(k);
    SignedProduct(k < 0, c, p);
    MulLe(0, c, p);
  }

  lemma ScaledAbs(r: int, exp: int)
    requires exp >= -64
    ensures Abs(r * Pow2(exp + 64)) == Scaled(Abs(r), exp)
    ensures r * Pow2(exp + 64) < 0 <==> r < 0
  {
    SignedProduct(r < 0, Abs(r), Pow2(exp + 64));
    MulLe(0, Abs(r), Pow2(exp + 64));
    if r < 0 {
      MulLt(r, 0, Pow2(exp + 64));
    }
  }

  lemma SignedResult(signA: bool, valueA: nat, valueB: int, n: int, v: int)
    requires NearestResult(valueA, valueB, n, v)
    ensures IsRounding(NearEven, Negate(signA, valueA), valueB, Negate(signA, n))
    ensures Negate(signA, v) == Negate(signA, valueA) - Negate(signA, n) * valueB
  {
    SignedProduct(signA, n, valueB);
    NearestQuotient(Negate(signA, valueA), valueB, Negate(signA, n));
  }

  /** The finite case: dividend and divisor normalized, neither of them zero. */
  method FiniteRemainder(s: FloatState, a: ExtFloat80, b: ExtFloat80, expA: int, sigA: u64, expB: int, sigB: u64)
    returns (z: ExtFloat80, ghost n: int)
    requires a.Finite() && b.Finite() && sigA >= TWO63 && sigB >= TWO63
    requires -62 <= expA <= 0x7FFE && -62 <= expB <= 0x7FFE
    requires Scaled(sigA, expA) == a.Mag() && Scaled(sigB, expB) == b.Mag()
    requires expA >= expB - 1
    modifies s`exceptionFlags
    ensures z.Finite() && s.exceptionFlags == old(s.exceptionFlags)
    ensures b.Mag() > 0 && IsRounding(NearEven, a.Value(), b.Mag(), n)
    ensures z.Value() == a.Value() - n * b.Mag()
    ensures z.Mag() == 0 ==> z.Sign() == a.Sign()
  {
    var rem, exp;
    ghost var r, n';
    rem, exp, r, n' := ReduceAndSelect(sigA, expA, sigB, expB);
    ghost var v := r * Pow2(exp + 64);
    ghost var c := RemainderUnits(a.signif, a.Weight(), b.signif, b.Weight(), n', v);
    ScaledAbs(r, exp);
    z := PackRemainder(s, a.Sign(), rem, exp, r, c);
    n := Negate(a.Sign(), n');
    SignedResult(a.Sign(), a.Mag(), b.Mag(), n', v);
    assert z.Value() == Negate(a.Sign(), v);
  }

  /** The remainder of a by b. For finite operands the result is a - n * b exactly, where n is the
      integer nearest the quotient a / b, ties to even; no exception is raised. */
  method ExtF80Rem(s: FloatState, a: ExtFloat80, b: ExtFloat80) returns (result: Outcome, ghost n: int)
    modifies s`exceptionFlags
    ensures result.PropagatedNaN? <==> a.NaN() || b.NaN()
    ensures result.Number? && (!a.Finite() || b.signif == 0) ==>
              result.z == DefaultNaN && s.exceptionFlags == old(s.exceptionFlags) + {Invalid}
    ensures result.Number? && a.Finite() && b.signif > 0 ==>
              result.z.Finite() && s.exceptionFlags == old(s.exceptionFlags)
    ensures result.Number? && a.Finite() && b.signif > 0 && !b.Finite() ==> result.z.Value() == a.Value()
    ensures result.Number? && a.Finite() && b.signif > 0 && b.Finite() ==>
              && b.Mag() > 0 && IsRounding(NearEven, a.Value(), b.Mag(), n)
              && result.z.Value() == a.Value() - n * b.Mag()
    ensures result.Number? && a.Finite() && b.signif > 0 && result.z.Mag() == 0 ==> result.z.Sign() == a.Sign()
  {
    n := 0;
    var expA, sigA, expB, sigB: u64 := a.Exp(), a.signif, b.Exp(), b.signif;
    if expA == 0x7FFF {
      if sigA % 0x8000_0000_0000_0000 != 0 || (expB == 0x7FFF && sigB % 0x8000_0000_0000_0000 != 0) {
        return PropagatedNaN, 0;
      }
      s.RaiseFlags({Invalid});
      return Number(DefaultNaN), 0;
    }
    if expB == 0x7FFF {
      if sigB % 0x8000_0000_0000_0000 != 0 {
        return PropagatedNaN, 0;
      }
      // doubled, so that the exponent difference below calls for a copy of a
      expB := expB + expB;
    }
    if sigB == 0 {
      s.RaiseFlags({Invalid});
      return Number(DefaultNaN), 0;
    }
    var normB := Normalize(expB, sigB);
    if sigA == 0 {
      ZeroRemainder(a, b);
      return Number(CopyA(a.Sign(), 0, 0)), 0;
    }
    var normA := Normalize(expA, sigA);
    if normA.exp - normB.exp < -1 {
      CopyIsExact(a.Sign(), a.signif, a.Weight(), a.Weight() - normA.exp, normA.sig);
      if b.Finite() {
        SmallerThanHalf(normA.sig, normA.exp, normB.sig, normB.exp);
        QuotientZero(a, b);
      }
      return Number(CopyA(a.Sign(), normA.exp, normA.sig)), 0;
    }
    var z;
    z, n := FiniteRemainder(s, a, b, normA.exp, normA.sig, normB.exp, normB.sig);
    result := Number(z);
  }

  lemma QuotientZero(a: ExtFloat80, b: ExtFloat80)
    requires b.signif > 0 && 2 * a.Mag() <= b.Mag()
    ensures b.Mag() > 0 && IsRounding(NearEven, a.Value(), b.Mag(), 0)
  {
    PositiveMag(b);
    NearestQuotient(a.Value(), b.Mag(), 0);
  }

  lemma ZeroRemainder(a: ExtFloat80, b: ExtFloat80)
    requires a.signif == 0 && b.signif > 0
    ensures var z := CopyA(a.Sign(), 0, 0);
            z.Finite() && z.Value() == a.Value() == 0 && z.Mag() == 0 && z.Sign() == a.Sign()
    ensures b.Mag() > 0 && IsRounding(NearEven, a.Value(), b.Mag(), 0)
  {
    assert a.Mag() == 0;
    PositiveMag(b);
    QuotientZero(a, b);
    Unpacked(a.Sign(), 0, 0);
    DivModUnique(0, Pow2(1), 0, 0);
  }
}

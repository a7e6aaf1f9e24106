/** The square root of the 80-bit format: an estimate, a correction loop on the exact residual, a last
    digit, and a refinement of that digit when it is close to a boundary. The refinement is sometimes
    skipped when it should not be: the result is the rounded root exactly when that does not happen. */
module ExtF80Sqrt {
  import opened Words
  import opened PowersOfTwo
  import opened Primitives
  import opened Rounding
  import opened ExtF80
  import opened RoundPack
  import opened SqrtEstimate
  import opened RecipSqrtTable

  const TWO24: int := 0x100_0000
  const TWO29: int := 0x2000_0000

  // ----- the values the code goes through

  /** h is the root of n rounded down. */
  ghost predicate IsRoot(n: int, h: int) {
    0 <= h && h * h <= n < (h + 1) * (h + 1)
  }

  function Radicand(odd: nat, sigA: nat): nat {
    sigA * (if odd == 0 then TWO62 else 0x2000_0000_0000_0000)
  }

  function FirstEstimate(odd: nat, sigA: nat, recip: nat): nat {
    var s := sigA / TWO32 * recip / TWO32;
    if odd == 0 then s else s / 2
  }

  function MiddleEstimate(odd: nat, sigA: nat, recip: nat): int {
    var s := FirstEstimate(odd, sigA, recip);
    s * TWO32 + 8 * ((Radicand(odd, sigA) - s * s * TWO64) / TWO64 / 4 * recip / TWO32)
  }

  /** The middle estimate lowered in steps of 8 until its square is not above the radicand. */
  function Corrected(x: int, z: int): int
    decreases z
  {
    if z * z <= x || z < 8 then z else Corrected(x, z - 8)
  }

  function LastDigitOf(x: int, z: int, recip: nat): int {
    (x - z * z) / 0x20_0000_0000 * recip / TWO32 + 2
  }

  /** The digit is left as it is unless its low 24 bits are at most 2. */
  predicate Skipped(digit: int) {
    digit % TWO24 > 2
  }

  // ----- words

  method ShiftLeft(a: UInt128, dist: nat, ghost p: int) returns (z: UInt128)
    requires 1 <= dist <= 63 && p == Pow2(dist) && a.Val() * p < TWO128
    ensures z.Val() == a.Val() * p
  {
    z := ShortShiftLeft128(a, dist);
  }

  method Minus(a: UInt128, b: UInt128, ghost m: int, ghost n: int) returns (z: UInt128)
    requires a.Val() == m && b.Val() == n && -TWO127 <= m - n < TWO127
    ensures z.Signed() == m - n && (z.Negative() <==> m < n)
  {
    z := Sub128(a, b);
  }

  method Plus(a: UInt128, b: u64, ghost m: int) returns (z: UInt128)
    requires a.Val() == m && m + b < TWO128
    ensures z.Val() == m + b
  {
    z := Add128(a, UInt128(0, b));
  }

  method TimesShifted32(a: u64, b: u32, ghost m: int) returns (z: UInt128)
    requires m == a * b
    ensures z.Val() == m * TWO32
  {
    z := Mul64ByShifted32To128(a, b);
  }

  // ----- the first estimate

  lemma FirstIs(odd: nat, a: int, recip: int, s: int)
    requires odd <= 1 && 0 <= a * recip && s == if odd == 0 then a * recip / TWO32 else a * recip / TWO32 / 2
    ensures IsFirst(a, 1 + odd, recip, s)
  {
  }

  method FirstStage(odd: nat, sigA: u64, recip: u32, ghost x: nat) returns (sig32Z: u32, rem: UInt128)
    requires odd <= 1 && sigA >= TWO63 && IsRecipSqrt(sigA / TWO32, 1 + odd, recip) && x == Radicand(odd, sigA)
    ensures sig32Z == FirstEstimate(odd, sigA, recip) && IsFirst(sigA / TWO32, 1 + odd, recip, sig32Z)
    ensures rem.Val() == x - sig32Z * sig32Z * TWO64
  {
    var sig32A: u32 := sigA / TWO32;
    MulRange0(sig32A, recip);
    var s := sig32A * recip / TWO32;
    if odd != 0 {
      s := s / 2;
    }
    FirstIs(odd, sig32A, recip, s);
    FirstRange(sig32A, 1 + odd, recip, s);
    FirstBelow(sigA, 1 + odd, x, recip, s);
    sig32Z := s;
    rem := ShiftRadicand(odd, sigA);
    SquareFits(s, x, rem.v64, rem.v0);
    rem := UInt128(rem.v64 - s * s, rem.v0);
  }

  lemma MulRange0(a: nat, b: nat)
    ensures a * b >= 0
  {
  }

  lemma SquareFits(s: int, x: int, hi: int, lo: int)
    requires 0 <= s && x == hi * TWO64 + lo && 0 <= lo < TWO64 && s * s * TWO64 <= x
    ensures 0 <= s * s <= hi
  {
    var ss := s * s;
    MulLe(0, s, s);
  }

  method ShiftRadicand(odd: nat, sigA: u64) returns (rem: UInt128)
    ensures rem.Val() == Radicand(odd, sigA)
  {
    Pow2Values();
    if odd != 0 {
      rem := ShiftLeft(UInt128(0, sigA), 61, 0x2000_0000_0000_0000);
    } else {
      rem := ShiftLeft(UInt128(0, sigA), 62, TWO62);
    }
  }

  // ----- the correction loop

  /** What every pass of the loop keeps: the digit and the estimate belong together, the estimate is not
      far from the root, and lowering it on leads to the same end. */
  ghost predicate InLoop(x: int, s: int, q: int, z: int, z0: int) {
    && 0 <= s < 0x8000_0000 && 0 <= q < TWO32 && z == s * TWO32 + 8 * q
    && s * s * TWO64 <= x < (z + 62) * (z + 62) && x - s * s * TWO64 < 0x4_0000_0000_0000_0000_0000_0000
    && z * z - x < 0x1000_0000_0000_0000_0000
    && x < TWO126 && Corrected(x, z) == Corrected(x, z0)
  }

  /** The product that the loop subtracts is the difference of the squares. */
  lemma DifferenceOfSquares(s: int, q: int, z: int)
    requires z == s * TWO32 + 8 * q
    ensures (s * TWO32 + z) * q * TWO32 == (z * z - s * s * TWO64) * TWO29
  {
    var w := s * TWO32;
    assert w * w == s * s * TWO64;
    assert z * z == w * w + 16 * (w * q) + 64 * (q * q);
    assert (w + z) * q == 2 * (w * q) + 8 * (q * q);
  }

  lemma EstimateBelowTwo63(x: int, z: int)
    requires 0 <= z && z * z - x < 0x1000_0000_0000_0000_0000 && x < TWO126
    ensures z < TWO63 + 0x1000
  {
    if z >= TWO63 + 0x1000 {
      MulLe(TWO63 + 0x1000, z, z);
      MulLe(TWO63 + 0x1000, z, TWO63 + 0x1000);
    }
  }

  /** One pass: the exact residual for the estimate. */
  method Residual(y: UInt128, s: u32, q: u32, sigZ: u64, ghost x: int, ghost z0: int) returns (rem: UInt128)
    requires InLoop(x, s, q, sigZ, z0) && y.Val() == (x - s * s * TWO64) * TWO29
    ensures rem.Signed() == (x - sigZ * sigZ) * TWO29 && (rem.Negative() <==> x < sigZ * sigZ)
  {
    EstimateBelowTwo63(x, sigZ);
    var x64 := s * TWO32;
    ghost var m := (x64 + sigZ) * q;
    DifferenceOfSquares(s, q, sigZ);
    ghost var zz, ss := sigZ * sigZ, s * s * TWO64;
    var term := TimesShifted32(x64 + sigZ, q, m);
    assert (x - ss) * TWO29 - m * TWO32 == (x - zz) * TWO29;
    rem := Minus(y, term, (x - ss) * TWO29, m * TWO32);
  }

  lemma Lowered(x: int, s: int, q: int, z: int, z0: int)
    requires InLoop(x, s, q, z, z0) && x < z * z
    ensures q > 0 && InLoop(x, s, q - 1, z - 8, z0)
  {
    assert q == 0 ==> z * z == s * s * TWO64;
    MulLe(0, s, TWO32);
    var z' := z - 8;
    assert (z' + 62) * (z' + 62) == z * z + 108 * z + 54 * 54;
    assert z' * z' == z * z - 16 * z' - 64;
  }

  method CorrectionLoop(y: UInt128, s: u32, q0: u32, sigZ0: u64, ghost x: int) returns (sigZ: u64, rem: UInt128)
    requires InLoop(x, s, q0, sigZ0, sigZ0) && y.Val() == (x - s * s * TWO64) * TWO29
    ensures s * TWO32 <= sigZ && sigZ == Corrected(x, sigZ0)
    ensures sigZ * sigZ <= x < (sigZ + 62) * (sigZ + 62)
    ensures rem.Val() == (x - sigZ * sigZ) * TWO29
  {
    var q := q0;
    sigZ := sigZ0;
    rem := Residual(y, s, q, sigZ, x, sigZ0);
    while rem.Negative()
      invariant InLoop(x, s, q, sigZ, sigZ0)
      invariant rem.Signed() == (x - sigZ * sigZ) * TWO29 && (rem.Negative() <==> x < sigZ * sigZ)
      decreases q
    {
      Lowered(x, s, q, sigZ, sigZ0);
      q := q - 1;
      sigZ := sigZ - 8;
      rem := Residual(y, s, q, sigZ, x, sigZ0);
    }
  }

  // ----- the middle digit

  lemma EntersLoop(x: int, s: int, q: int, z: int)
    requires 0 <= s < 0x8000_0000 && 0 <= q < TWO32 && z == s * TWO32 + 8 * q && x < TWO126
    requires 0 <= x - s * s * TWO64 && 100 * (x - s * s * TWO64) < TWO64 * (720 * s + 1361)
    requires s * q * 0x10_0000_0000 <= x - s * s * TWO64 < s * (8 * q + 62) * 0x2_0000_0000
    ensures InLoop(x, s, q, z, z)
  {
    var w, n := s * TWO32, 8 * q + 62;
    assert w * w == s * s * TWO64;
    assert z * z == w * w + 16 * (w * q) + 64 * (q * q);
    assert w * q == s * q * TWO32;
    assert (w + n) * (w + n) == w * w + 2 * (w * n) + n * n;
    assert w * n == s * n * TWO32;
    MulLe(q, TWO32, q);
    MulLe(0, n, n);
  }

  lemma RadicandRange(odd: nat, sigA: nat)
    requires odd <= 1 && TWO63 <= sigA < TWO64
    ensures IsRadicand(sigA, 1 + odd, Radicand(odd, sigA))
    ensures TWO62 * TWO62 <= Radicand(odd, sigA) <= TWO126 - TWO62
  {
  }

  method MiddleStage(odd: nat, sigA: u64, recip: u32, s: u32, rem0: UInt128, ghost x: nat)
      returns (sigZ: u64, rem: UInt128)
    requires odd <= 1 && sigA >= TWO63 && IsRecipSqrt(sigA / TWO32, 1 + odd, recip) && x == Radicand(odd, sigA)
    requires s == FirstEstimate(odd, sigA, recip) && IsFirst(sigA / TWO32, 1 + odd, recip, s)
    requires rem0.Val() == x - s * s * TWO64
    ensures s * TWO32 <= sigZ && sigZ == Corrected(x, MiddleEstimate(odd, sigA, recip))
    ensures sigZ * sigZ <= x < (sigZ + 62) * (sigZ + 62)
    ensures rem.Val() == (x - sigZ * sigZ) * TWO29
  {
    ghost var n0 := x - s * s * TWO64;
    MiddleFacts(odd, sigA, recip, s, x, n0);
    MiddleIs(odd, sigA, recip, s, x, n0);
    var q := MiddleWord(rem0, recip, n0);
    ghost var z0 := MiddleEstimate(odd, sigA, recip);
    sigZ, rem := MiddleLoop(rem0, s, q, x, n0, z0);
  }

  lemma MiddleIs(odd: nat, sigA: nat, recip: nat, s: nat, x: nat, n0: int)
    requires x == Radicand(odd, sigA) && s == FirstEstimate(odd, sigA, recip) && n0 == x - s * s * TWO64
    ensures MiddleEstimate(odd, sigA, recip) == s * TWO32 + 8 * (n0 / TWO64 / 4 * recip / TWO32)
  {
  }

  method MiddleLoop(rem0: UInt128, s: u32, q: u32, ghost x: int, ghost n0: int, ghost z0: int)
      returns (sigZ: u64, rem: UInt128)
    requires rem0.Val() == n0 && n0 == x - s * s * TWO64
    requires InLoop(x, s, q, z0, z0)
    ensures s * TWO32 <= sigZ && sigZ == Corrected(x, z0)
    ensures sigZ * sigZ <= x < (sigZ + 62) * (sigZ + 62)
    ensures rem.Val() == (x - sigZ * sigZ) * TWO29
  {
    EstimateBelowTwo63(x, z0);
    var y := ShiftLeft29(rem0, n0);
    sigZ, rem := CorrectionLoop(y, s, q, s * TWO32 + 8 * q, x);
  }

  method MiddleWord(rem0: UInt128, recip: u32, ghost n0: int) returns (q: u32)
    requires rem0.Val() == n0 && 0 <= n0 / TWO64 / 4 < TWO32 && 0 <= n0 / TWO64 / 4 * recip / TWO32 < TWO32
    ensures q == n0 / TWO64 / 4 * recip / TWO32
  {
    assert rem0.v64 == n0 / TWO64;
    q := rem0.v64 / 4 % TWO32 * recip / TWO32;
  }

  method ShiftLeft29(rem: UInt128, ghost n: int) returns (y: UInt128)
    requires rem.Val() == n && 0 <= n < 0x4_0000_0000_0000_0000_0000_0000
    ensures y.Val() == n * TWO29
  {
    Pow2SmallValues();
    y := ShiftLeft(rem, 29, TWO29);
  }

  lemma MiddleFacts(odd: nat, sigA: u64, recip: u32, s: u32, x: nat, n0: int)
    requires odd <= 1 && sigA >= TWO63 && IsRecipSqrt(sigA / TWO32, 1 + odd, recip) && x == Radicand(odd, sigA)
    requires IsFirst(sigA / TWO32, 1 + odd, recip, s) && n0 == x - s * s * TWO64
    ensures 0 <= n0 && 0 <= n0 / TWO64 / 4 < TWO32
    ensures var q := n0 / TWO64 / 4 * recip / TWO32;
      0 <= q < TWO32 && InLoop(x, s, q, s * TWO32 + 8 * q, s * TWO32 + 8 * q)
  {
    RadicandRange(odd, sigA);
    var a := sigA / TWO32;
    ProductNearTwo62(a, 1 + odd, recip, s);
    FirstRange(a, 1 + odd, recip, s);
    FirstResidual(sigA, 1 + odd, x, recip, s);
    var v := n0 / TWO64;
    var q := v / 4 * recip / TWO32;
    MiddleDigit(n0, s, recip, v, v / 4, q);
    EntersLoop(x, s, q, s * TWO32 + 8 * q);
  }

  // ----- the last digit

  lemma ResidualSmall(x: int, z: int)
    requires 0 <= z && z * z <= x < (z + 62) * (z + 62)
    ensures 0 <= x - z * z < 124 * z + 3844
  {
    assert (z + 62) * (z + 62) == z * z + 124 * z + 3844;
  }

  /** Where the root lies against the quarters of the middle estimate that the last digit counts. */
  lemma QuarterFacts(x: int, z: int, u: int, b: int)
    requires 0 <= z && 0 <= u && b == 4 * z + (u + 2) / TWO24
    requires (0x400_0000 * z + u - 1) * (0x400_0000 * z + u - 1) < 0x10_0000_0000_0000 * x
    requires (0x400_0000 * z + u + 32) * (0x400_0000 * z + u + 32) > 0x10_0000_0000_0000 * x
    ensures Skipped(u + 2) ==> b * b < 16 * x < (b + 2) * (b + 2)
    ensures !Skipped(u + 2) && b > 0 ==> (b - 1) * (b - 1) < 16 * x < (b + 1) * (b + 1)
  {
    var low, high := 0x400_0000 * z + u - 1, 0x400_0000 * z + u + 32;
    if Skipped(u + 2) {
      SquareBelow(b, low, x);
      SquareAbove(b + 2, high, x);
    } else if b > 0 {
      SquareBelow(b - 1, low, x);
      SquareAbove(b + 1, high, x);
    }
  }

  lemma SquareBelow(n: int, low: int, x: int)
    requires 0 <= n && n * TWO24 <= low && low * low < 0x10_0000_0000_0000 * x
    ensures n * n < 16 * x
  {
    MulLe(n * TWO24, low, n * TWO24);
    MulLe(n * TWO24, low, low);
    assert n * TWO24 * (n * TWO24) == n * n * 0x1_0000_0000_0000;
  }

  lemma SquareAbove(n: int, high: int, x: int)
    requires 0 <= high <= n * TWO24 && high * high > 0x10_0000_0000_0000 * x
    ensures n * n > 16 * x
  {
    MulLe(high, n * TWO24, high);
    MulLe(high, n * TWO24, n * TWO24);
    assert n * TWO24 * (n * TWO24) == n * n * 0x1_0000_0000_0000;
  }

  lemma SquareOrder(m: int, n: int)
    requires 0 <= n && m * m < n * n
    ensures m < n
  {
    if m >= n {
      MulLe(n, m, n);
      MulLe(n, m, m);
    }
  }

  /** The words have room for the quarters. */
  lemma QuarterRange(x: int, b: int)
    requires TWO62 * TWO62 <= x <= TWO126 - TWO62 && 1 <= b
    requires (b - 1) * (b - 1) < 16 * x < (b + 2) * (b + 2)
    ensures TWO64 - 1 <= b < 2 * TWO64
  {
    SquareOrder(b - 1, 2 * TWO64 - 1);
    if b + 2 <= TWO64 {
      MulLe(b + 2, TWO64, b + 2);
      MulLe(b + 2, TWO64, TWO64);
    }
  }

  /** Just below the smallest normalized root nothing is skipped. */
  lemma SmallestRoots(odd: nat, sigA: u64, recip: u32)
    requires odd <= 1 && sigA >= TWO63 && IsRecipSqrt(sigA / TWO32, 1 + odd, recip)
    requires 16 * Radicand(odd, sigA) < (TWO64 + 1) * (TWO64 + 1)
    ensures var x := Radicand(odd, sigA);
      var z := Corrected(x, MiddleEstimate(odd, sigA, recip));
      4 * z + LastDigitOf(x, z, recip) / TWO24 >= TWO64
  {
    assert odd == 1 && sigA <= TWO63 + 1 && sigA / TWO32 == 0x8000_0000;
    LargestRecip(recip);
    var x, z := Radicand(odd, sigA), TWO62 - 16;
    assert sigA / TWO32 * recip / TWO32 / 2 == 0x3FFF_FFFF;
    assert FirstEstimate(odd, sigA, recip) == 0x3FFF_FFFF;
    assert (x - 0x3FFF_FFFF * 0x3FFF_FFFF * TWO64) / TWO64 == 0x7FFF_FFFF;
    assert 0x7FFF_FFFF / 4 * recip / TWO32 == 0x1FFF_FFFE;
    assert MiddleEstimate(odd, sigA, recip) == z;
    assert z * z <= x;
    assert Corrected(x, z) == z;
    assert x - z * z == if sigA == TWO63 then 0x8_0000_0000_0000_0000 - 256 else 0x8_2000_0000_0000_0000 - 256;
  }

  lemma LargestRecip(recip: u32)
    requires IsRecipSqrt(0x8000_0000, 2, recip)
    ensures recip == 0xFFFF_FFFF || recip == 0xFFFF_FFFE
  {
    if recip <= 0xFFFF_FFFD {
      var m := 50 * recip + 103;
      MulLe(m, 50 * 0xFFFF_FFFD + 103, m);
      MulLe(m, 50 * 0xFFFF_FFFD + 103, 50 * 0xFFFF_FFFD + 103);
    }
  }

  /** What the two words stand for: half of root, with a little more unless it is exact. */
  ghost predicate Stand(sigZ: u64, extra: u64, root: nat, exact: bool) {
    Represents(sigZ, extra, 2 * root + (if exact then 0 else 1), 4)
  }

  lemma LastFacts(odd: nat, sigA: u64, recip: u32, s: u32, x: nat, z: u64)
    requires odd <= 1 && sigA >= TWO63 && IsRecipSqrt(sigA / TWO32, 1 + odd, recip) && x == Radicand(odd, sigA)
    requires IsFirst(sigA / TWO32, 1 + odd, recip, s) && s * TWO32 <= z
    requires z == Corrected(x, MiddleEstimate(odd, sigA, recip)) && z * z <= x < (z + 62) * (z + 62)
    ensures var y, d := x - z * z, LastDigitOf(x, z, recip);
      var b := 4 * z + d / TWO24;
      && 0 <= y < 124 * z + 3844 && 0 < z < TWO63
      && 0 <= y / 0x20_0000_0000 * recip < TWO64 && 2 <= d < TWO32 && TWO64 <= b < 2 * TWO64
      && (Skipped(d) ==> b * b < 16 * x < (b + 2) * (b + 2))
      && (!Skipped(d) ==> (b - 1) * (b - 1) < 16 * x < (b + 1) * (b + 1))
  {
    RadicandRange(odd, sigA);
    FirstRange(sigA / TWO32, 1 + odd, recip, s);
    RootTimesR(sigA, 1 + odd, x, recip, s, z);
    ResidualSmall(x, z);
    var y := x - z * z;
    var w := y / 0x20_0000_0000;
    var u := w * recip / TWO32;
    LastDigit(x, z, recip, y, w, u);
    var b := 4 * z + (u + 2) / TWO24;
    QuarterFacts(x, z, u, b);
    Squares(x, b);
    QuarterRange(x, b);
    SquareOrder(z, TWO63);
    if 16 * x < (TWO64 + 1) * (TWO64 + 1) {
      SmallestRoots(odd, sigA, recip);
    } else {
      SquareOrder(TWO64 + 1, b + 2);
    }
  }

  lemma Squares(x: int, b: int)
    requires 0 < b
    requires b * b < 16 * x < (b + 2) * (b + 2) || (b - 1) * (b - 1) < 16 * x < (b + 1) * (b + 1)
    ensures (b - 1) * (b - 1) < 16 * x < (b + 2) * (b + 2)
  {
    assert (b - 1) * (b - 1) == b * b - 2 * b + 1;
    assert (b + 1) * (b + 1) == b * b + 2 * b + 1;
    assert (b + 2) * (b + 2) == b * b + 4 * b + 4;
  }

  /** The words of a digit that is left as it is. */
  lemma SkippedWords(z: int, q: int, b: int)
    requires 0 <= z < TWO63 && 2 <= q < TWO32 && b == 4 * z + q / TWO24 && TWO64 <= b < 2 * TWO64 && Skipped(q)
    ensures 2 * z + q / 0x200_0000 == b / 2
    ensures Stand(b / 2, q * 0x80_0000_0000 % TWO64, b, false)
  {
    var m := q % 0x200_0000;
    assert q * 0x80_0000_0000 % TWO64 == m * 0x80_0000_0000;
    assert m == (b % 2) * TWO24 + q % TWO24;
  }

  /** The exact residual of the quarters, from the words of the refinement. */
  lemma QuarterResidual(x: int, z: int, k: int, b: int, q: int)
    requires b == 4 * z + k && q == k * TWO24 && 0 <= k < 256
    ensures (z + q / 0x800_0000) * q * TWO32 + q * 32 % TWO32 * (q % TWO32)
         == (x - z * z) * TWO29 * 0x1000_0000 - (16 * x - b * b) * 0x20_0000_0000_0000
  {
    var h, m := q / 0x800_0000, q % 0x800_0000;
    assert q * 32 % TWO32 == 32 * m;
    var zq, hq, mq, zk := z * q, h * q, m * q, z * k;
    assert (z + h) * q == zq + hq;
    assert 32 * m * q == 32 * mq;
    assert q * q == 0x800_0000 * hq + mq;
    assert zq == zk * TWO24;
    assert q * q == k * k * 0x1_0000_0000_0000;
    assert b * b == 16 * (z * z) + 8 * zk + k * k;
  }

  lemma BoundaryWord(k: nat)
    ensures k * TWO24 * 0x80_0000_0000 % TWO64 == k % 2 * TWO63
  {
  }

  lemma ResidualRange(x: int, b: int)
    requires 0 < b < 2 * TWO64 && (b - 1) * (b - 1) < 16 * x < (b + 1) * (b + 1)
    ensures -4 * TWO64 < 16 * x - b * b < 5 * TWO64
  {
    assert (b - 1) * (b - 1) == b * b - 2 * b + 1;
    assert (b + 1) * (b + 1) == b * b + 2 * b + 1;
  }

  lemma TermRange(z: u64, q: u32, y: int)
    requires z < TWO63 && 0 <= y < 124 * z + 3844
    ensures 0 <= y * TWO29 && y * TWO29 * 0x1000_0000 < TWO127 && z + q / 0x800_0000 < TWO64
    ensures 0 <= q * 32 % TWO32 * (q % TWO32) < TWO64 && (z + q / 0x800_0000) * q >= 0
  {
    MulLe(q * 32 % TWO32, TWO32 - 1, q % TWO32);
    MulLe(0, q * 32 % TWO32, q % TWO32);
    MulLe(0, z + q / 0x800_0000, q);
  }

  /** The residual of the estimate with the cleared digit, exactly. */
  method RefinedResidual(z: u64, q: u32, rem: UInt128, ghost x: int, ghost k: int, ghost b: int) returns (rem': UInt128)
    requires z < TWO63 && q == k * TWO24 && 0 <= k < 256 && b == 4 * z + k && TWO64 <= b < 2 * TWO64
    requires (b - 1) * (b - 1) < 16 * x < (b + 1) * (b + 1)
    requires rem.Val() == (x - z * z) * TWO29 && 0 <= x - z * z < 124 * z + 3844
    ensures rem'.Signed() == (16 * x - b * b) * 0x20_0000_0000_0000 && (rem'.Negative() <==> 16 * x < b * b)
  {
    ghost var y := x - z * z;
    TermRange(z, q, y);
    QuarterResidual(x, z, k, b, q);
    ResidualRange(x, b);
    ghost var c := (16 * x - b * b) * 0x20_0000_0000_0000;
    ghost var m := (z + q / 0x800_0000) * q;
    var term := TimesShifted32(z + q / 0x800_0000, q, m);
    var x64: u64 := q * 32 % TWO32 * (q % TWO32);
    term := Plus(term, x64, m * TWO32);
    Pow2SmallValues();
    Pow2Of28();
    var shifted := ShiftLeft(rem, 28, 0x1000_0000);
    rem' := Minus(shifted, term, y * TWO29 * 0x1000_0000, y * TWO29 * 0x1000_0000 - c);
  }

  lemma Pow2Of28()
    ensures Pow2(28) == 0x1000_0000
  {
    Pow2SmallValues();
    assert Pow2(29) == 2 * Pow2(28);
  }

  lemma RootAtLeast(x: int, root: int)
    requires TWO62 * TWO62 <= x && IsRoot(16 * x, root)
    ensures root >= TWO64
  {
    SquareOrder(TWO64 - 1, root + 1);
  }

  /** The last digit, refined when its low bits say so. */
  method LastStage(odd: nat, sigA: u64, recip: u32, ghost s: u32, z: u64, rem: UInt128, ghost x: nat)
      returns (sigZ: u64, sigZExtra: u64, ghost root: nat, ghost exact: bool)
    requires odd <= 1 && sigA >= TWO63 && IsRecipSqrt(sigA / TWO32, 1 + odd, recip) && x == Radicand(odd, sigA)
    requires IsFirst(sigA / TWO32, 1 + odd, recip, s) && s * TWO32 <= z
    requires z == Corrected(x, MiddleEstimate(odd, sigA, recip)) && z * z <= x < (z + 62) * (z + 62)
    requires rem.Val() == (x - z * z) * TWO29
    ensures sigZ >= TWO63 && Stand(sigZ, sigZExtra, root, exact)
    ensures var d := LastDigitOf(x, z, recip);
      && (!Skipped(d) ==> IsRoot(16 * x, root) && (exact <==> root * root == 16 * x))
      && (Skipped(d) ==> !exact && root == 4 * z + d / TWO24 && root * root < 16 * x < (root + 2) * (root + 2))
  {
    LastFacts(odd, sigA, recip, s, x, z);
    var q := DigitWord(rem, recip, x - z * z);
    ghost var b := 4 * z + q / TWO24;
    if q % TWO24 <= 2 {
      sigZ, sigZExtra, root, exact := Refine(z, q, rem, x, b);
    } else {
      sigZ, sigZExtra := LeaveDigit(z, q, b);
      root, exact := b, false;
    }
  }

  method DigitWord(rem: UInt128, recip: u32, ghost y: int) returns (q: u32)
    requires 0 <= y && rem.Val() == y * TWO29 && 0 <= y / 0x20_0000_0000 * recip < TWO64
    requires y / 0x20_0000_0000 * recip / TWO32 + 2 < TWO32
    ensures q == y / 0x20_0000_0000 * recip / TWO32 + 2
  {
    HighPart(rem, y);
    q := rem.v64 / 4 * recip % TWO64 / TWO32 + 2;
  }

  method LeaveDigit(z: u64, q: u32, ghost b: int) returns (sigZ: u64, sigZExtra: u64)
    requires z < TWO63 && 2 <= q && b == 4 * z + q / TWO24 && TWO64 <= b < 2 * TWO64 && Skipped(q)
    ensures sigZ >= TWO63 && Stand(sigZ, sigZExtra, b, false)
  {
    SkippedWords(z, q, b);
    sigZ := 2 * z + q / 0x200_0000;
    sigZExtra := q * 0x80_0000_0000 % TWO64;
  }

  /** The words of a refined digit, by the sign of the residual; a sticky bit is set in a clear word. */
  lemma RefinedWords(b: nat)
    requires TWO64 <= b < 2 * TWO64
    ensures Stand(b / 2, b % 2 * TWO63, b, true) && Stand(b / 2, b % 2 * TWO63 + 1, b, false)
    ensures b % 2 == 0 ==> Stand(b / 2 - 1, TWO64 - 1, b - 1, false)
    ensures b % 2 == 1 ==> Stand(b / 2, TWO63 - 1, b - 1, false)
  {
    StandEven(b / 2, 2 * b, b);
    StandEven((b - 1) / 2, 2 * (b - 1), b - 1);
  }

  lemma StandEven(h: nat, n: nat, b: nat)
    requires h == b / 2 && n == 2 * b
    ensures n / 4 == h && n % 4 == 2 * (b % 2) && (n + 1) / 4 == h && (n + 1) % 4 == 2 * (b % 2) + 1
  {
  }

  lemma HighPart(rem: UInt128, y: int)
    requires 0 <= y && rem.Val() == y * TWO29
    ensures rem.v64 / 4 == y / 0x20_0000_0000
  {
  }

  method Refine(z: u64, q0: u32, rem: UInt128, ghost x: nat, ghost b: nat)
      returns (sigZ: u64, sigZExtra: u64, ghost root: nat, ghost exact: bool)
    requires z < TWO63 && 2 <= q0 && b == 4 * z + q0 / TWO24 && TWO64 <= b < 2 * TWO64 && q0 % TWO24 <= 2
    requires (b - 1) * (b - 1) < 16 * x < (b + 1) * (b + 1) && TWO62 * TWO62 <= x
    requires rem.Val() == (x - z * z) * TWO29 && 0 <= x - z * z < 124 * z + 3844
    ensures sigZ >= TWO63 && Stand(sigZ, sigZExtra, root, exact)
    ensures IsRoot(16 * x, root) && (exact <==> root * root == 16 * x)
  {
    ghost var k := q0 / TWO24;
    QuarterWord(z, q0, k, b);
    sigZ := 2 * z + q0 / 0x200_0000;
    var q: u32 := q0 / 0x1_0000 * 0x1_0000;
    sigZExtra := q * 0x80_0000_0000 % TWO64;
    var rem' := RefinedResidual(z, q, rem, x, k, b);
    RefinedWords(b);
    if rem'.Negative() {
      root, exact := b - 1, false;
      RootAtLeast(x, root);
      if sigZExtra == 0 {
        sigZ := sigZ - 1;
        sigZExtra := TWO64 - 1;
      } else {
        sigZExtra := sigZExtra - 1;
      }
    } else {
      root, exact := b, 16 * x == b * b;
      if rem'.v64 != 0 || rem'.v0 != 0 {
        sigZExtra := sigZExtra + 1;
      }
    }
  }

  lemma QuarterWord(z: int, q0: int, k: int, b: int)
    requires 0 <= z && 0 <= q0 < TWO32 && k == q0 / TWO24 && q0 % TWO24 <= 2 && b == 4 * z + k
    ensures q0 / 0x1_0000 * 0x1_0000 == k * TWO24 && 0 <= k < 256 && 2 * z + q0 / 0x200_0000 == b / 2
    ensures q0 / 0x1_0000 * 0x1_0000 * 0x80_0000_0000 % TWO64 == b % 2 * TWO63
  {
    BoundaryWord(k);
  }

  // ----- when the digit settles the root

  /** The last digit settles the root when it is refined, or when no quarter lies between it and the root. */
  predicate Settles(x: int, z: int, digit: int) {
    !Skipped(digit) || 16 * x < (4 * z + digit / TWO24 + 1) * (4 * z + digit / TWO24 + 1)
  }

  lemma SettledIff(x: int, b: int, root: int, exact: bool, skipped: bool)
    requires !skipped ==> IsRoot(16 * x, root) && (exact <==> root * root == 16 * x)
    requires skipped ==> !exact && root == b && 0 <= b && b * b < 16 * x < (b + 2) * (b + 2)
    ensures IsRoot(16 * x, root) <==> !skipped || 16 * x < (b + 1) * (b + 1)
    ensures skipped && 16 * x >= (b + 1) * (b + 1) ==> IsRoot(16 * x, root + 1)
    ensures exact <==> root * root == 16 * x
  {
  }

  ghost function Estimate(odd: nat, sigA: nat, recip: nat): int {
    Corrected(Radicand(odd, sigA), MiddleEstimate(odd, sigA, recip))
  }

  /** Whether the code finds the root, on a normalized significand. */
  ghost predicate FindsRoot(odd: nat, sigA: nat, recip: nat) {
    var x, z := Radicand(odd, sigA), Estimate(odd, sigA, recip);
    Settles(x, z, LastDigitOf(x, z, recip))
  }

  /** The two words stand for the root of four times the radicand exactly when the last digit settles it;
      otherwise for half a unit less. */
  method SqrtSignificand(odd: nat, sigA: u64, recipSqrt32: u32)
      returns (sigZ: u64, sigZExtra: u64, ghost root: nat, ghost exact: bool)
    requires odd <= 1 && sigA >= TWO63 && IsRecipSqrt(sigA / TWO32, 1 + odd, recipSqrt32)
    ensures sigZ >= TWO63 && Stand(sigZ, sigZExtra, root, exact)
    ensures exact <==> root * root == 16 * Radicand(odd, sigA)
    ensures IsRoot(16 * Radicand(odd, sigA), root) <==> FindsRoot(odd, sigA, recipSqrt32)
    ensures !FindsRoot(odd, sigA, recipSqrt32) ==> IsRoot(16 * Radicand(odd, sigA), root + 1)
    ensures !FindsRoot(odd, sigA, recipSqrt32) ==>
      root == 4 * Estimate(odd, sigA, recipSqrt32)
        + LastDigitOf(Radicand(odd, sigA), Estimate(odd, sigA, recipSqrt32), recipSqrt32) / TWO24
  {
    ghost var x := Radicand(odd, sigA);
    var sig32Z, rem := FirstStage(odd, sigA, recipSqrt32, x);
    var z;
    z, rem := MiddleStage(odd, sigA, recipSqrt32, sig32Z, rem, x);
    ghost var d := LastDigitOf(x, z, recipSqrt32);
    LastFacts(odd, sigA, recipSqrt32, sig32Z, x, z);
    sigZ, sigZExtra, root, exact := LastStage(odd, sigA, recipSqrt32, sig32Z, z, rem, x);
    SettledIff(x, 4 * z + d / TWO24, root, exact, Skipped(d));
  }

  // ----- the operation

  predicate FinitePositive(a: ExtFloat80) {
    a.Finite() && !a.Sign() && a.signif > 0
  }

  function OddExp(a: ExtFloat80): (odd: nat)
    requires FinitePositive(a)
    ensures odd <= 1
  {
    Normalize(a.Exp(), a.signif).exp % 2
  }

  function Sig(a: ExtFloat80): u64
    requires FinitePositive(a)
  {
    Normalize(a.Exp(), a.signif).sig
  }

  function ResultExp(a: ExtFloat80): int
    requires FinitePositive(a)
  {
    (Normalize(a.Exp(), a.signif).exp - 0x3FFF) / 2 + 0x3FFF
  }

  /** The approximate reciprocal root of the leading word of a positive operand. */
  function TableValue(a: ExtFloat80): u32
    requires FinitePositive(a)
  {
    ApproxRecipSqrt32(OddExp(a), Sig(a) / TWO32)
  }

  method LookUp(a: ExtFloat80) returns (recipSqrt32: u32)
    requires FinitePositive(a)
    ensures recipSqrt32 == TableValue(a) && IsRecipSqrt(Sig(a) / TWO32, 1 + OddExp(a), recipSqrt32)
  {
    TableIsAccurate(OddExp(a), Sig(a) / TWO32);
    recipSqrt32 := ApproxRecipSqrt32(OddExp(a), Sig(a) / TWO32);
  }

  /** The whole operation. */
  method ExtF80Sqrt(s: FloatState, a: ExtFloat80)
      returns (result: Outcome, ghost root: nat, ghost exact: bool, ghost recip: u32)
    modifies s`exceptionFlags
    ensures result.PropagatedNaN? <==> a.NaN()
    ensures !a.NaN() && !a.Finite() && !a.Sign() ==> result == Number(a) && s.exceptionFlags == old(s.exceptionFlags)
    ensures a.Finite() && a.signif == 0 ==>
      result == Number(ExtFloat80(PackToExtF80UI64(a.Sign(), 0), 0)) && s.exceptionFlags == old(s.exceptionFlags)
    ensures !a.NaN() && a.Sign() && (!a.Finite() || a.signif > 0) ==>
      result == Number(DefaultNaN) && s.exceptionFlags == old(s.exceptionFlags) + {Invalid}
    ensures a.Finite() && !a.Sign() && a.signif > 0 ==> recip == TableValue(a)
    ensures a.Finite() && !a.Sign() && a.signif > 0 ==>
      var n := 16 * Radicand(OddExp(a), Sig(a));
      && (IsRoot(n, root) <==> FindsRoot(OddExp(a), Sig(a), recip))
      && (!IsRoot(n, root) ==> IsRoot(n, root + 1))
      && (exact <==> root * root == n)
      && TWO64 <= root < 2 * TWO64
      && result == Number(Rounded(s.roundingMode, false, ResultExp(a), 2 * root + (if exact then 0 else 1), 4))
      && s.exceptionFlags == old(s.exceptionFlags) + if exact then {} else {Inexact}
  {
    root, exact, recip := 0, false, 0;
    var expA: int, sigA: u64 := a.Exp(), a.signif;
    if expA == 0x7FFF {
      if sigA % 0x8000_0000_0000_0000 != 0 {
        return PropagatedNaN, root, exact, recip;
      }
      if !a.Sign() {
        return Number(a), root, exact, recip;
      }
      s.RaiseFlags({Invalid});
      return Number(DefaultNaN), root, exact, recip;
    }
    if a.Sign() {
      if sigA == 0 {
        return Number(ExtFloat80(PackToExtF80UI64(true, 0), 0)), root, exact, recip;
      }
      s.RaiseFlags({Invalid});
      return Number(DefaultNaN), root, exact, recip;
    }
    if sigA == 0 {
      return Number(ExtFloat80(PackToExtF80UI64(false, 0), 0)), root, exact, recip;
    }
    var z;
    var recipSqrt32 := LookUp(a);
    recip := recipSqrt32;
    z, root, exact := PositiveSqrt(s, a, recipSqrt32);
    result := Number(z);
  }

  method PositiveSqrt(s: FloatState, a: ExtFloat80, recipSqrt32: u32)
      returns (z: ExtFloat80, ghost root: nat, ghost exact: bool)
    requires FinitePositive(a) && IsRecipSqrt(Sig(a) / TWO32, 1 + OddExp(a), recipSqrt32)
    modifies s`exceptionFlags
    ensures var n := 16 * Radicand(OddExp(a), Sig(a));
      && (IsRoot(n, root) <==> FindsRoot(OddExp(a), Sig(a), recipSqrt32))
      && (!IsRoot(n, root) ==> IsRoot(n, root + 1))
      && (exact <==> root * root == n)
      && TWO64 <= root < 2 * TWO64
      && z == Rounded(s.roundingMode, false, ResultExp(a), 2 * root + (if exact then 0 else 1), 4)
      && s.exceptionFlags == old(s.exceptionFlags) + if exact then {} else {Inexact}
  {
    var norm := Normalize(a.Exp(), a.signif);
    var expZ := (norm.exp - 0x3FFF) / 2 + 0x3FFF;
    var sigZ, sigZExtra;
    sigZ, sigZExtra, root, exact := SqrtSignificand(norm.exp % 2, norm.sig, recipSqrt32);
    StandRange(sigZ, sigZExtra, root, exact);
    if exact {
      EvenSquare(root, Radicand(norm.exp % 2, norm.sig));
    }
    FlagsOfRoot(s.roundingMode, s.tininessBeforeRounding, expZ, root, exact);
    z := RoundPackToExtF80(s, false, expZ, sigZ, sigZExtra, 2 * root + (if exact then 0 else 1), 4);
  }

  lemma EvenSquare(root: nat, x: int)
    requires root * root == 16 * x
    ensures root % 2 == 0
  {
    var h, o := root / 2, root % 2;
    assert root == 2 * h + o;
    assert root * root == 4 * (h * h) + 4 * (h * o) + o * o;
  }

  lemma StandRange(sigZ: u64, extra: u64, root: nat, exact: bool)
    requires Stand(sigZ, extra, root, exact) && sigZ >= TWO63
    ensures TWO64 <= root < 2 * TWO64
  {
  }

  lemma FlagsOfRoot(mode: RoundingMode, before: bool, exp: int, root: nat, exact: bool)
    requires 0 < exp < 0x7FFE && TWO64 <= root < 2 * TWO64 && (exact ==> root % 2 == 0)
    ensures RoundedFlags(mode, before, false, exp, 2 * root + (if exact then 0 else 1), 4)
         == if exact then {} else {Inexact}
  {
  }

  // ----- what the packed root means

  /** What each mode asks of m as a rounding of half the square root of n, for n that is no odd square. */
  ghost predicate IsRootRounding(mode: RoundingMode, n: int, m: int) {
    0 < m &&
    match mode
    case NearEven => (2 * m - 1) * (2 * m - 1) <= n <= (2 * m + 1) * (2 * m + 1)
    case NearMaxMag => (2 * m - 1) * (2 * m - 1) <= n <= (2 * m + 1) * (2 * m + 1)
    case MinMag => (2 * m) * (2 * m) <= n < (2 * m + 2) * (2 * m + 2)
    case Min => (2 * m) * (2 * m) <= n < (2 * m + 2) * (2 * m + 2)
    case Max => (2 * m - 2) * (2 * m - 2) < n <= (2 * m) * (2 * m)
    case Odd => IsOddRounding(n, m)
  }

  predicate IsOddRounding(n: int, m: int) {
    || (2 * m) * (2 * m) == n
    || (m % 2 == 1 && (2 * m - 2) * (2 * m - 2) < n < (2 * m + 2) * (2 * m + 2))
  }

  lemma SquareLess(m: nat, n: nat)
    requires m < n
    ensures m * m < n * n
  {
    MulLe(m, n, m);
    MulLt(m, n, n);
  }

  lemma SquareOrderIff(m: nat, n: nat)
    ensures m < n <==> m * m < n * n
  {
    if m < n {
      SquareLess(m, n);
    } else if n < m {
      SquareLess(n, m);
    }
  }

  /** Comparing a root with an integer is comparing the radicand with its square. */
  lemma RootCompares(n: int, h: nat, k: nat)
    requires IsRoot(n, h)
    ensures k * k <= n <==> k <= h
    ensures n < k * k <==> h < k
  {
    SquareOrderIff(k, h + 1);
    SquareOrderIff(h, k);
    if k <= h {
      SquareOrderIff(h, k);
    } else {
      SquareOrderIff(k, h + 1);
    }
  }

  function Packed(mode: RoundingMode, root: nat, exact: bool): nat {
    RoundMag(mode, false, 2 * root + (if exact then 0 else 1), 4)
  }

  /** A root that was found is correctly rounded in every mode. */
  lemma {:induction false} FoundRootIsRounded(mode: RoundingMode, n: int, root: nat, exact: bool)
    requires IsRoot(n, root) && (exact <==> root * root == n) && (exact ==> root % 2 == 0) && root >= 2
    ensures IsRootRounding(mode, n, Packed(mode, root, exact))
  {
    var m := Packed(mode, root, exact);
    PackedCases(mode, root, exact);
    RootCompares(n, root, 2 * m - 1);
    RootCompares(n, root, 2 * m + 1);
    RootCompares(n, root, 2 * m);
    RootCompares(n, root, 2 * m + 2);
    RootCompares(n, root, 2 * m - 2);
  }

  lemma PackedCases(mode: RoundingMode, root: nat, exact: bool)
    requires exact ==> root % 2 == 0
    ensures Packed(mode, root, exact) ==
      if exact then root / 2
      else match mode
        case NearEven => (root + 1) / 2
        case NearMaxMag => (root + 1) / 2
        case MinMag => root / 2
        case Min => root / 2
        case Max => root / 2 + 1
        case Odd => if root / 2 % 2 == 0 then root / 2 + 1 else root / 2
  {
  }

  /** When the root found is half a unit too low the rounding is still right in some modes, for some
      roots, and for no others. */
  predicate Survives(mode: RoundingMode, n: int, root: nat) {
    match mode
    case NearEven => root % 2 == 1
    case NearMaxMag => root % 2 == 1
    case MinMag => root % 2 == 0
    case Min => root % 2 == 0
    case Max => root % 2 == 0 || (root + 1) * (root + 1) == n
    case Odd => root % 2 == 0 || (root + 1) / 2 % 2 == 1
  }

  lemma {:induction false} MissedRoot(mode: RoundingMode, n: int, root: nat)
    requires IsRoot(n, root + 1) && root >= 2 && ((root + 1) * (root + 1) == n ==> root % 2 == 1)
    ensures IsRootRounding(mode, n, Packed(mode, root, false)) <==> Survives(mode, n, root)
  {
    var m := Packed(mode, root, false);
    PackedCases(mode, root, false);
    match mode
    case NearEven => MissedNear(n, root, m);
    case NearMaxMag => MissedNear(n, root, m);
    case MinMag => MissedDown(n, root, m);
    case Min => MissedDown(n, root, m);
    case Max => MissedUp(n, root, m);
    case Odd =>
      OddQuarters(root, root / 4, root % 4);
      MissedOdd(n, root, root / 4, root % 4);
  }

  /** A square that equals the radicand is the square of the root. */
  lemma OnlyRoot(n: int, h: nat, k: nat)
    requires IsRoot(n, h)
    ensures k * k == n ==> k == h
  {
    RootCompares(n, h, k);
    SquareOrderIff(k, h);
  }

  lemma MissedNear(n: int, root: nat, m: nat)
    requires IsRoot(n, root + 1) && m == (root + 1) / 2 && root >= 2
    requires (root + 1) * (root + 1) == n ==> root % 2 == 1
    ensures (2 * m - 1) * (2 * m - 1) <= n <= (2 * m + 1) * (2 * m + 1) <==> root % 2 == 1
  {
    RootCompares(n, root + 1, 2 * m - 1);
    RootCompares(n, root + 1, 2 * m + 1);
    OnlyRoot(n, root + 1, 2 * m + 1);
  }

  lemma MissedDown(n: int, root: nat, m: nat)
    requires IsRoot(n, root + 1) && m == root / 2 && root >= 2
    ensures (2 * m) * (2 * m) <= n < (2 * m + 2) * (2 * m + 2) <==> root % 2 == 0
  {
    RootCompares(n, root + 1, 2 * m);
    RootCompares(n, root + 1, 2 * m + 2);
  }

  lemma MissedUp(n: int, root: nat, m: nat)
    requires IsRoot(n, root + 1) && m == root / 2 + 1 && root >= 2
    requires (root + 1) * (root + 1) == n ==> root % 2 == 1
    ensures (2 * m - 2) * (2 * m - 2) < n <= (2 * m) * (2 * m)
        <==> root % 2 == 0 || (root + 1) * (root + 1) == n
  {
    RootCompares(n, root + 1, 2 * m);
    RootCompares(n, root + 1, 2 * m - 2);
    OnlyRoot(n, root + 1, 2 * m - 2);
    OnlyRoot(n, root + 1, 2 * m);
  }

  lemma MissedOdd(n: int, root: nat, k: nat, c: nat)
    requires IsRoot(n, root + 1) && root == 4 * k + c && c < 4
    ensures IsOddRounding(n, 2 * k + 1) <==> c != 3
  {
    RootCompares(n, root + 1, 4 * k + 4);
    RootCompares(n, root + 1, 4 * k);
    OnlyRoot(n, root + 1, 4 * k);
    OnlyRoot(n, root + 1, 4 * k + 2);
  }

  lemma OddQuarters(root: nat, k: nat, c: nat)
    requires k == root / 4 && c == root % 4
    ensures (if root / 2 % 2 == 0 then root / 2 + 1 else root / 2) == 2 * k + 1
    ensures root % 2 == 0 || (root + 1) / 2 % 2 == 1 <==> c != 3
  {
  }

  // ----- the root of the operand

  lemma PowersMatch(sig: nat, odd: nat, e: nat, exp: int)
    requires odd <= 1 && exp >= -64 && 192 - odd + 2 * e == exp + 16574
    ensures 4 * Radicand(odd, sig) * (Pow2(e + 64) * Pow2(e + 64)) == sig * Pow2(exp + 64) * Pow2(16510)
  {
    var k: nat := 64 - odd;
    var n: nat := 16510;
    Pow2Values();
    assert Pow2(63) * 2 == Pow2(64);
    assert 4 * Radicand(odd, sig) == sig * Pow2(k);
    Pow2Add(e + 64, e + 64);
    Pow2Add(k, e + 64 + (e + 64));
    Pow2Add(exp + 64, n);
    assert k + (e + 64 + (e + 64)) == exp + 64 + n;
    MulAssoc(sig, Pow2(k), Pow2(e + 64 + (e + 64)));
    MulAssoc(sig, Pow2(exp + 64), Pow2(n));
  }

  /** Four times the radicand, with the weight of the result, is the square the result should have: all
      magnitudes count units of 2^-16510. */
  lemma RadicandOfOperand(a: ExtFloat80)
    requires FinitePositive(a)
    ensures ResultExp(a) > 0
    ensures 4 * Radicand(OddExp(a), Sig(a)) * (Pow2(ResultExp(a) + 64) * Pow2(ResultExp(a) + 64))
         == a.Mag() * Pow2(16510)
  {
    var norm := Normalize(a.Exp(), a.signif);
    PowersMatch(norm.sig, OddExp(a), ResultExp(a), norm.exp);
  }

  lemma {:induction false} RoundedIff(mode: RoundingMode, x: nat, root: nat, exact: bool, found: bool)
    requires root >= 2 && (found <==> IsRoot(16 * x, root)) && (!found ==> IsRoot(16 * x, root + 1))
    requires exact <==> root * root == 16 * x
    ensures IsRootRounding(mode, 16 * x, Packed(mode, root, exact)) <==> found || Survives(mode, 16 * x, root)
  {
    if exact {
      EvenSquare(root, x);
    }
    if found {
      FoundRootIsRounded(mode, 16 * x, root, exact);
    } else {
      if (root + 1) * (root + 1) == 16 * x {
        EvenSquare(root + 1, x);
      }
      OnlyRoot(16 * x, root + 1, root);
      MissedRoot(mode, 16 * x, root);
    }
  }

  /** The packed result counts the rounded root in units of its last place. */
  lemma PackedValue(mode: RoundingMode, exp: nat, num: nat)
    requires 0 < exp < 0x7FFE && TWO63 <= num / 4 < TWO64
    ensures var z := Rounded(mode, false, exp, num, 4);
      z.Finite() && !z.Sign() && z.Mag() == Scaled(RoundMag(mode, false, num, 4), exp)
  {
    NormalValue(mode, false, exp, num, 4);
  }

  /** The square root of a positive value is correctly rounded, whatever the mode, exactly when the last digit
      settles the root or the mode does not look at the bit that is off. Root, exact and recip are those of
      ExtF80Sqrt. */
  lemma {:induction false} SqrtIsCorrectlyRounded(mode: RoundingMode, a: ExtFloat80, recip: u32, root: nat, exact: bool)
      returns (m: nat)
    requires FinitePositive(a) && TWO64 <= root < 2 * TWO64
    requires var n := 16 * Radicand(OddExp(a), Sig(a));
      && (IsRoot(n, root) <==> FindsRoot(OddExp(a), Sig(a), recip))
      && (!IsRoot(n, root) ==> IsRoot(n, root + 1))
      && (exact <==> root * root == n)
    ensures var z := Rounded(mode, false, ResultExp(a), 2 * root + (if exact then 0 else 1), 4);
      z.Finite() && !z.Sign() && z.Mag() == Scaled(m, ResultExp(a))
    ensures var n := 16 * Radicand(OddExp(a), Sig(a));
      IsRootRounding(mode, n, m) <==> FindsRoot(OddExp(a), Sig(a), recip) || Survives(mode, n, root)
  {
    var num := 2 * root + if exact then 0 else 1;
    m := RoundMag(mode, false, num, 4);
    assert m == Packed(mode, root, exact);
    RoundedIff(mode, Radicand(OddExp(a), Sig(a)), root, exact, FindsRoot(OddExp(a), Sig(a), recip));
    assert 0 < ResultExp(a) < 0x7FFE by {
      RadicandOfOperand(a);
    }
    PackedValue(mode, ResultExp(a), num);
  }

  // ----- where a root can be missed

  lemma {:induction false} CorrectedRange(x: int, s: int, q: int, z: int, z0: int)
    requires InLoop(x, s, q, z, z0)
    ensures var c := Corrected(x, z0);
      s * TWO32 <= c && c * c <= x < (c + 62) * (c + 62)
    decreases q
  {
    if x < z * z {
      Lowered(x, s, q, z, z0);
      CorrectedRange(x, s, q - 1, z - 8, z0);
    }
  }

  lemma EstimateRange(odd: nat, sigA: u64, recip: u32, s: nat, x: nat)
    requires odd <= 1 && sigA >= TWO63 && IsRecipSqrt(sigA / TWO32, 1 + odd, recip) && x == Radicand(odd, sigA)
    requires s == FirstEstimate(odd, sigA, recip)
    ensures IsFirst(sigA / TWO32, 1 + odd, recip, s)
    ensures var z := Estimate(odd, sigA, recip);
      s * TWO32 <= z && z * z <= x < (z + 62) * (z + 62)
  {
    var n0 := x - s * s * TWO64;
    MulLe(0, sigA / TWO32, recip);
    FirstIs(odd, sigA / TWO32, recip, s);
    FirstRange(sigA / TWO32, 1 + odd, recip, s);
    MiddleFacts(odd, sigA, recip, s, x, n0);
    MiddleIs(odd, sigA, recip, s, x, n0);
    var q := n0 / TWO64 / 4 * recip / TWO32;
    CorrectedRange(x, s, q, s * TWO32 + 8 * q, s * TWO32 + 8 * q);
  }

  /** The root is less than 30 units of the last digit above it. */
  lemma RootBelowDigit(odd: nat, sigA: u64, recip: u32, x: nat, z: nat)
    requires odd <= 1 && sigA >= TWO63 && IsRecipSqrt(sigA / TWO32, 1 + odd, recip) && x == Radicand(odd, sigA)
    requires z == Estimate(odd, sigA, recip)
    ensures var high := 0x400_0000 * z + LastDigitOf(x, z, recip) + 30;
      2 <= LastDigitOf(x, z, recip) && high * high > 0x10_0000_0000_0000 * x
  {
    var s := FirstEstimate(odd, sigA, recip);
    EstimateRange(odd, sigA, recip, s, x);
    RadicandRange(odd, sigA);
    FirstRange(sigA / TWO32, 1 + odd, recip, s);
    RootTimesR(sigA, 1 + odd, x, recip, s, z);
    ResidualSmall(x, z);
    var y := x - z * z;
    var w := y / 0x20_0000_0000;
    LastDigit(x, z, recip, y, w, w * recip / TWO32);
  }

  /** A guard that can be computed along with the digit: unless its low 24 bits are among the 29 largest
      values, the root is found. */
  lemma GuardFindsRoot(odd: nat, sigA: u64, recip: u32)
    requires odd <= 1 && sigA >= TWO63 && IsRecipSqrt(sigA / TWO32, 1 + odd, recip)
    ensures LastDigitOf(Radicand(odd, sigA), Estimate(odd, sigA, recip), recip) % TWO24 <= TWO24 - 30
      ==> FindsRoot(odd, sigA, recip)
  {
    var x, s := Radicand(odd, sigA), FirstEstimate(odd, sigA, recip);
    EstimateRange(odd, sigA, recip, s, x);
    MulLe(0, sigA / TWO32, recip);
    var z := Estimate(odd, sigA, recip);
    RootBelowDigit(odd, sigA, recip, x, z);
    var d := LastDigitOf(x, z, recip);
    if d % TWO24 <= TWO24 - 30 {
      SquareAbove(4 * z + d / TWO24 + 1, 0x400_0000 * z + d + 30, x);
    }
  }

  // ----- operands whose root is missed

  lemma MissEntry()
    ensures TableEntry(0, 0xF9DF_2F08) == 33165
  {
    assert K0s[14] == 0x8424 && K1s[14] == 0x432B;
  }

  lemma MissTable()
    ensures ApproxRecipSqrt32(0, 0xF9DF_2F08) == 0x818F_6397 && IsRecipSqrt(0xF9DF_2F08, 1, 0x818F_6397)
  {
    MissEntry();
    assert 33165 * 33165 * 2 % TWO32 == 2199834450;
    assert TWO32 - 1 - 2199834450 * 0xF9DF_2F08 / 0x80_0000 % TWO32 == 158390217;
    assert 33165 * 0x1_0000 + 33165 * 158390217 / 0x200_0000 == 2173657991;
    assert 158390217 * 158390217 / TWO32 == 5841129;
  }

  lemma MissMiddle(sig: nat)
    requires sig == 0xF9DF_2F08_4F23_0CD7
    ensures MiddleEstimate(0, sig, 0x818F_6397) == 9112307708279303896
  {
    assert sig / TWO32 == 0xF9DF_2F08;
    assert FirstEstimate(0, sig, 0x818F_6397) == 2121624466;
    assert (Radicand(0, sig) - 2121624466 * 2121624466 * TWO64) / TWO64 == 12266333169;
    assert 12266333169 / 4 * 0x818F_6397 / TWO32 == 1551979995;
  }

  lemma MissDigit(x: nat, z: nat)
    requires x == 0xF9DF_2F08_4F23_0CD7 * TWO62 && z == 9112307708279303896
    ensures Corrected(x, z) == z && LastDigitOf(x, z, 0x818F_6397) == 0x70FF_FFFF
    ensures IsRoot(16 * x, 4 * z + 113) && 16 * x != (4 * z + 113) * (4 * z + 113)
  {
    assert x - z * z == 514845385521192348096;
    assert 514845385521192348096 / 0x20_0000_0000 == 3745993202;
    assert 3745993202 * 0x818F_6397 / TWO32 == 1895825405;
  }

  /** For an operand of about 3.9 with this significand the table keeps its promise, the middle estimate
      needs no correction, the last digit ends in FFFFFF and is not refined, and the root is half a unit
      higher than the code takes it to be: rounding to nearest goes the wrong way. */
  lemma NearestIsMissed(sig: nat) returns (r: u32, x: nat, z: int, root: int)
    requires sig == 0xF9DF_2F08_4F23_0CD7
    ensures r == ApproxRecipSqrt32(0, 0xF9DF_2F08) && x == Radicand(0, sig)
    ensures z == Estimate(0, sig, r) && root == 4 * z + LastDigitOf(x, z, r) / TWO24
    ensures sig / TWO32 == 0xF9DF_2F08 && IsRecipSqrt(0xF9DF_2F08, 1, r)
    ensures !FindsRoot(0, sig, r) && IsRoot(16 * x, root + 1)
    ensures 0 <= root && !IsRootRounding(NearEven, 16 * x, Packed(NearEven, root, false))
  {
    r, x := ApproxRecipSqrt32(0, 0xF9DF_2F08), Radicand(0, sig);
    MissTable();
    MissMiddle(sig);
    MissDigit(x, 9112307708279303896);
    z := Estimate(0, sig, r);
    root := 4 * z + LastDigitOf(x, z, r) / TWO24;
    MissedRoot(NearEven, 16 * x, root);
  }

  lemma MissedParts(a: ExtFloat80)
    requires a == ExtFloat80(0x4000, 0xF9DF_2F08_4F23_0CD7)
    ensures FinitePositive(a) && !a.NaN()
    ensures OddExp(a) == 0 && Sig(a) == 0xF9DF_2F08_4F23_0CD7 && ResultExp(a) == 0x3FFF
  {
  }

  lemma MissedRootIs(sig: nat, x: nat, root: nat, exact: bool)
    requires sig == 0xF9DF_2F08_4F23_0CD7 && x == Radicand(0, sig)
    requires IsRoot(16 * x, root) <==> FindsRoot(0, sig, 0x818F_6397)
    requires !IsRoot(16 * x, root) ==> IsRoot(16 * x, root + 1)
    requires exact <==> root * root == 16 * x
    ensures root == 36449230833117215696 && !exact
    ensures !IsRootRounding(NearEven, 16 * x, 18224615416558607848)
    ensures IsRootRounding(NearEven, 16 * x, 18224615416558607849)
  {
    var z := 9112307708279303896;
    MissMiddle(sig);
    MissDigit(x, z);
    assert Estimate(0, sig, 0x818F_6397) == z;
    assert !FindsRoot(0, sig, 0x818F_6397);
    RootCompares(16 * x, root + 1, 36449230833117215697);
    RootCompares(16 * x, root + 1, 36449230833117215698);
  }

  lemma MissedPacking()
    ensures Rounded(NearEven, false, 0x3FFF, 2 * 36449230833117215696 + 1, 4) == ExtFloat80(0x3FFF, 18224615416558607848)
  {
  }

  /** The same for the whole operation: for this operand the significand that the code packs is one below the
      rounding of the root to nearest. */
  method SqrtMisses(s: FloatState, a: ExtFloat80) returns (result: Outcome)
    requires s.roundingMode == NearEven && a == ExtFloat80(0x4000, 0xF9DF_2F08_4F23_0CD7)
    modifies s`exceptionFlags
    ensures result == Number(ExtFloat80(0x3FFF, 18224615416558607848))
    ensures !IsRootRounding(NearEven, 16 * Radicand(0, a.signif), 18224615416558607848)
    ensures IsRootRounding(NearEven, 16 * Radicand(0, a.signif), 18224615416558607849)
  {
    MissTable();
    MissedParts(a);
    MissedPacking();
    ghost var root, exact, recip;
    result, root, exact, recip := ExtF80Sqrt(s, a);
    MissedRootIs(a.signif, Radicand(0, a.signif), root, exact);
  }
}

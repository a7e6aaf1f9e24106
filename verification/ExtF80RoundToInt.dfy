/** Rounding an 80-bit extended value to an integral value. */
module ExtF80RoundToInt {
  import opened Words
  import opened PowersOfTwo
  import opened Primitives
  import opened Rounding
  import opened ExtF80

  /** The exponent at which the last significand bit weighs 1. */
  const UNIT: nat := 0x403E

  /** The magnitude of a finite value as a fraction: numerator and denominator. */
  ghost function Numerator(a: ExtFloat80): nat {
    MulLe(0, a.signif, Pow2(if a.Weight() <= UNIT then 0 else a.Weight() - UNIT));
    a.signif * Pow2(if a.Weight() <= UNIT then 0 else a.Weight() - UNIT)
  }

  ghost function Denominator(a: ExtFloat80): (d: int)
    ensures d > 0
  {
    Pow2(if a.Weight() <= UNIT then UNIT - a.Weight() else 0)
  }

  /** Where a significand f * p + r lands when add is added to it, modulo 2^64. */
  lemma SumParts(f: nat, r: nat, p: int, q: int, add: nat)
    requires p > 0 && q * p == TWO64 && f < q && r < p && add < p
    ensures 0 <= f * p && f * p + r < TWO64
    ensures var y := (f * p + r + add) % TWO64;
            if r + add < p then y / p == f && y % p == r + add
            else y / p == (if f + 1 == q then 0 else f + 1) && y % p == r + add - p
  {
    MulLe(0, f, p);
    MultiplesApart(f, q, p);
    assert (f + 1) * p == f * p + p;
    var y := (f * p + r + add) % TWO64;
    if r + add < p {
      DivModUnique(y, p, f, r + add);
    } else if f + 1 == q {
      DivModUnique(y, p, 0, r + add - p);
    } else {
      MultiplesApart(f + 1, q, p);
      DivModUnique(y, p, f + 1, r + add - p);
    }
  }

  /** The multiple k * p of the place value, where the multiple after the last one wraps to zero. */
  ghost function Wrapped(k: nat, p: int, q: int): int {
    if k == q then 0 else k * p
  }

  /** The amount that a mode adds to a significand before it cuts the low bits off. */
  function Increment(mode: RoundingMode, sign: bool, lastBitMask: u64): nat {
    if mode.NearMaxMag? || mode.NearEven? then lastBitMask / 2
    else if lastBitMask > 0 && mode == (if sign then Min else Max) then lastBitMask - 1
    else 0
  }

  /** The multiple that remains after adding, clearing the last bit on a tie to even, and cutting. */
  lemma IncrementRounds(mode: RoundingMode, sign: bool, f: nat, r: nat, p: u64, q: int, y: u64)
    requires p > 0 && p % 2 == 0 && q % 2 == 0 && f < q && r < p
    requires var add := Increment(mode, sign, p);
             if r + add < p then y / p == f && y % p == r + add
             else y / p == (if f + 1 == q then 0 else f + 1) && y % p == r + add - p
    ensures !mode.Odd? ==>
              var m := f + if RoundsUp(mode, sign, f, r, p) then 1 else 0;
              (if mode.NearEven? && y % p == 0 then y / p / 2 * 2 else y / p) == if m == q then 0 else m
  {
  }

  ghost function RoundedMultiple(mode: RoundingMode, sign: bool, f: nat, r: nat, p: int): nat {
    f + if RoundsUp(mode, sign, f, r, p) then 1 else 0
  }

  /** Adds the increment of the mode and cuts the low bits off. */
  method AddAndCut(mode: RoundingMode, sign: bool, sigA: u64, p: u64, ghost q: int, ghost f: nat, ghost r: nat)
    returns (sigZ: u64)
    requires p > 0 && p % 2 == 0 && q * p == TWO64 && q % 2 == 0 && f < q && r < p && sigA == f * p + r
    ensures sigZ == Wrapped(if mode.Odd? then f else RoundedMultiple(mode, sign, f, r, p), p, q)
  {
    var add := Increment(mode, sign, p);
    SumParts(f, r, p, q, add);
    sigZ := (sigA + add) % 0x1_0000_0000_0000_0000;
    IncrementRounds(mode, sign, f, r, p, q, sigZ);
    if mode.NearEven? && sigZ % p == 0 {
      sigZ := ClearLastBit(sigZ, p);
    }
    sigZ := ClearLowBits(sigZ, p);
  }

  /** Truncating an inexact significand to odd stays below the wrap. */
  lemma OddRounds(sign: bool, f: nat, r: nat, p: u64, q: int)
    requires p > 0 && q % 2 == 0 && f < q && r < p
    ensures RoundsUp(Odd, sign, f, r, p) ==> f + 1 < q
    ensures r == 0 <==> f * p + r == f * p
  {
  }

  function SetLastBit(x: u64, p: u64, ghost f: nat, ghost q: int): (z: u64)
    requires p > 0 && x == f * p && q * p == TWO64 && f < q && q % 2 == 0
    ensures z == (if f % 2 == 0 then f + 1 else f) * p
  {
    DivModUnique(x, p, f, 0);
    MultiplesApart(f, q, p);
    MultiplesApart(f + 1, q, p);
    assert (f + 1) * p == f * p + p;
    if x / p % 2 == 0 then x + p else x
  }

  function ClearLowBits(x: u64, p: int): (z: u64)
    requires p > 0
    ensures z == x / p * p
  {
    DivMod(x, p);
    MulLe(0, x / p, p);
    x - x % p
  }

  function ClearLastBit(x: u64, p: int): (z: u64)
    requires p > 0 && x % p == 0
    ensures z == x / p / 2 * 2 * p && z % p == 0 && z / p == x / p / 2 * 2
  {
    var k := x / p;
    DivMod(x, p);
    MulLe(1, if k > 0 then k else 1, p);
    DivModUnique(k / 2 * 2 * p, p, k / 2 * 2, 0);
    MulLe(0, k / 2 * 2, p);
    if k % 2 == 1 then x - p else x
  }

  /** The words of the result of rounding in place, for a value of at least 1. */
  ghost predicate IsRoundedPack(z: ExtFloat80, sign: bool, exp: nat, m: nat, n: nat)
    requires n <= 63 && exp < 0x7FFF
  {
    && (m == Pow2(64 - n) ==> z == ExtFloat80(PackToExtF80UI64(sign, exp + 1), TWO63))
    && (m != Pow2(64 - n) ==> z.signExp == PackToExtF80UI64(sign, exp) && z.signif == m * Pow2(n))
  }

  lemma PackedIntegral(z: ExtFloat80, sign: bool, exp: nat, m: nat, n: nat)
    requires 1 <= n <= 63 && exp == UNIT - n && n <= 64 && IsRoundedPack(z, sign, exp, m, n)
    ensures z.Finite() && z.Sign() == sign && z.Mag() == Scaled(m, UNIT)
  {
    if m == Pow2(64 - n) {
      Pow2Values();
      Pow2Add(64 - n, n - 1);
      Unpacked(sign, exp + 1, TWO63);
      ScaledShift(m, n - 1, UNIT);
    } else {
      Unpacked(sign, exp, z.signif);
      ScaledShift(m, n, UNIT);
    }
  }

  lemma PlaceValues(n: nat)
    requires 1 <= n <= 63
    ensures Pow2(64 - n) * Pow2(n) == TWO64
    ensures Pow2(n) % 2 == 0 && Pow2(64 - n) % 2 == 0
    ensures 0 < Pow2(n) <= TWO63
  {
    Pow2Add(64 - n, n);
    Pow2Monotone(n, 63);
    assert Pow2(63) == TWO63 && Pow2(64) == TWO64 by { Pow2Values(); }
    Pow2Even(n);
    Pow2Even(64 - n);
  }

  /** Rounds a normalized value of at least 1 that may have a fraction. */
  method RoundInPlace(s: FloatState, mode: RoundingMode, exact: bool, sign: bool, exp: int, sigA: u64) returns (z: ExtFloat80)
    requires 0x3FFF <= exp < UNIT && sigA >= TWO63
    modifies s`exceptionFlags
    ensures var m := RoundMag(mode, sign, sigA, Pow2(UNIT - exp));
            z.Finite() && z.Sign() == sign && z.Mag() == Scaled(m, UNIT)
    ensures s.exceptionFlags == old(s.exceptionFlags)
              + if exact && sigA % Pow2(UNIT - exp) != 0 then {Inexact} else {}
  {
    var n: nat := 0x403E - exp;
    PlaceValues(n);
    var lastBitMask: u64 := Pow2(n);
    ghost var q, f, r := Pow2(64 - n), sigA / lastBitMask, sigA % lastBitMask;
    SignificandParts(sigA, lastBitMask, q);
    var sigZ := AddAndCut(mode, sign, sigA, lastBitMask, q, f, r);
    var expZ := exp;
    OddRounds(sign, f, r, lastBitMask, q);
    CutChanges(mode, sign, sigA, lastBitMask, q, f, r, sigZ);
    if sigZ == 0 {
      expZ := expZ + 1;
      sigZ := 0x8000_0000_0000_0000;
    }
    if sigZ != sigA {
      if mode.Odd? {
        sigZ := SetLastBit(sigZ, lastBitMask, f, q);
      }
      if exact {
        s.RaiseFlags({Inexact});
      }
    }
    z := ExtFloat80(PackToExtF80UI64(sign, expZ), sigZ);
    PackedIntegral(z, sign, exp, RoundedMultiple(mode, sign, f, r, lastBitMask), n);
  }

  lemma SignificandParts(sigA: u64, p: u64, q: int)
    requires p > 0 && q * p == TWO64 && q % 2 == 0 && sigA >= TWO63
    ensures 0 < sigA / p < q && sigA == sigA / p * p + sigA % p && q <= 2 * (sigA / p)
  {
    TopHalf(sigA, p, q / 2, sigA / p, sigA % p) by { DivMod(sigA, p); }
  }

  lemma TopHalf(sigA: u64, p: u64, h: int, f: nat, r: nat)
    requires p > 0 && 2 * h * p == TWO64 && sigA >= TWO63 && sigA == f * p + r && r < p
    ensures 0 < h <= f < 2 * h
  {
    assert h * p == TWO63;
    MultiplesApart(f, h, p);
    MultiplesApart(f, 2 * h, p);
    if h <= 0 {
      MulLe(h, 0, p);
    }
  }

  /** Cutting changes the significand exactly when it had bits below the place. */
  lemma CutChanges(mode: RoundingMode, sign: bool, sigA: u64, p: u64, q: int, f: nat, r: nat, sigZ: u64)
    requires p > 0 && q * p == TWO64 && 0 < f < q && r < p && sigA == f * p + r && q <= 2 * f
    requires sigZ == Wrapped(if mode.Odd? then f else RoundedMultiple(mode, sign, f, r, p), p, q)
    ensures (if sigZ == 0 then TWO63 else sigZ) == sigA <==> r == 0
    ensures sigZ == 0 <==> !mode.Odd? && RoundedMultiple(mode, sign, f, r, p) == q
  {
  }

  /** A value normalized to sig * 2^e has the same fraction, in other terms. */
  lemma NormalizedFraction(a: ExtFloat80, mode: RoundingMode, sig: nat, e: int)
    requires e <= a.Weight() && e <= UNIT && sig == a.signif * Pow2(a.Weight() - e)
    ensures RoundMag(mode, a.Sign(), Numerator(a), Denominator(a)) == RoundMag(mode, a.Sign(), sig, Pow2(UNIT - e))
    ensures Numerator(a) % Denominator(a) == 0 <==> sig % Pow2(UNIT - e) == 0
  {
    var num, den := Numerator(a), Denominator(a);
    var t: int;
    if a.Weight() <= UNIT {
      t := Pow2(a.Weight() - e);
      Pow2Add(a.Weight() - e, UNIT - a.Weight());
    } else {
      t := Pow2(UNIT - e);
      Pow2Add(a.Weight() - UNIT, UNIT - e);
      MulAssoc(a.signif, Pow2(a.Weight() - UNIT), t);
    }
    assert num * t == sig && t * den == Pow2(UNIT - e);
    RoundMagScale(mode, a.Sign(), num, den, t);
    MulModMul(num, t, den);
    ZeroProduct(t, num % den);
  }

  lemma ZeroProduct(t: int, r: nat)
    requires t > 0
    ensures t * r == 0 <==> r == 0
  {
    if r > 0 {
      MulLe(1, r, t);
    }
  }

  /** Which values below 1 become 1 rather than 0. */
  predicate TinyRoundsUp(mode: RoundingMode, sign: bool, exp: int, sigA: u64) {
    match mode
    case NearEven => sigA % 0x8000_0000_0000_0000 != 0 && exp == 0x3FFE
    case NearMaxMag => exp == 0x3FFE
    case MinMag => false
    case Min => sign
    case Max => !sign
    case Odd => true
  }

  lemma TinyRounding(mode: RoundingMode, sign: bool, sigA: u64, n: nat)
    requires n >= 64 && sigA >= TWO63
    ensures RoundMag(mode, sign, sigA, Pow2(n)) == if TinyRoundsUp(mode, sign, UNIT - n, sigA) then 1 else 0
    ensures sigA % Pow2(n) != 0
  {
    Pow2Values();
    Pow2Monotone(if n == 64 then 64 else 65, n);
    assert Pow2(65) == 2 * Pow2(64);
    DivModUnique(sigA, Pow2(n), 0, sigA);
  }

  lemma ZeroResult(sign: bool)
    ensures var zero := ExtFloat80(PackToExtF80UI64(sign, 0), 0);
            zero.Finite() && zero.Sign() == sign && zero.Mag() == 0 == Scaled(0, UNIT)
  {
    Unpacked(sign, 0, 0);
  }

  lemma OneResult(sign: bool)
    ensures var one := ExtFloat80(PackToExtF80UI64(sign, 0x3FFF), 0x8000_0000_0000_0000);
            one.Finite() && one.Sign() == sign && one.Mag() == Scaled(1, UNIT)
  {
    Unpacked(sign, 0x3FFF, 0x8000_0000_0000_0000);
    var k: nat := 63;
    assert Pow2(k) == TWO63 by { Pow2Values(); }
    ScaledShift(1, k, UNIT);
  }

  /** The integral magnitude that a finite value rounds to. */
  ghost function IntegralMag(mode: RoundingMode, a: ExtFloat80): nat {
    RoundMag(mode, a.Sign(), Numerator(a), Denominator(a))
  }

  /** A result that is the finite value a rounded to an integer. */
  ghost predicate IsIntegralResult(mode: RoundingMode, a: ExtFloat80, z: ExtFloat80) {
    z.Finite() && z.Sign() == a.Sign() && z.Mag() == Scaled(IntegralMag(mode, a), UNIT)
  }

  /** A non-zero finite value, normalized to sigA * 2^exp (one lower for subnormals). */
  method RoundNormalized(s: FloatState, a: ExtFloat80, mode: RoundingMode, exact: bool, exp: int, sigA: u64, ghost e: int)
    returns (z: ExtFloat80)
    requires a.Finite() && sigA >= TWO63 && e <= a.Weight() && sigA == a.signif * Pow2(a.Weight() - e)
    requires (e == exp || (e == exp + 1 && e <= 1)) && -63 <= exp <= 0x7FFE
    modifies s`exceptionFlags
    ensures IsIntegralResult(mode, a, z)
    ensures s.exceptionFlags == old(s.exceptionFlags)
              + if exact && Numerator(a) % Denominator(a) != 0 then {Inexact} else {}
  {
    var sign := a.Sign();
    if 0x403E <= exp {
      AlreadyIntegral(a, mode, sigA, exp);
      return ExtFloat80(PackToExtF80UI64(sign, exp), sigA);
    }
    NormalizedFraction(a, mode, sigA, e);
    if exp <= 0x3FFE {
      if exact {
        s.RaiseFlags({Inexact});
      }
      z := TinyResult(mode, sign, exp, sigA, UNIT - e);
    } else {
      z := RoundInPlace(s, mode, exact, sign, exp, sigA);
    }
  }

  /** A value below 1, of which sigA * 2^-n is the magnitude. */
  function TinyResult(mode: RoundingMode, sign: bool, exp: int, sigA: u64, ghost n: nat): (z: ExtFloat80)
    requires n >= 64 && sigA >= TWO63 && (exp == UNIT - n || (n > 65 && exp == UNIT - n - 1))
    ensures sigA % Pow2(n) != 0
    ensures z.Finite() && z.Sign() == sign && z.Mag() == Scaled(RoundMag(mode, sign, sigA, Pow2(n)), UNIT)
  {
    TinyRounding(mode, sign, sigA, n);
    OneResult(sign);
    ZeroResult(sign);
    if TinyRoundsUp(mode, sign, exp, sigA) then ExtFloat80(PackToExtF80UI64(sign, 0x3FFF), 0x8000_0000_0000_0000)
    else ExtFloat80(PackToExtF80UI64(sign, 0), 0)
  }

  lemma AlreadyIntegral(a: ExtFloat80, mode: RoundingMode, sigA: u64, e: nat)
    requires UNIT <= e <= 0x7FFE && e <= a.Weight() && sigA == a.signif * Pow2(a.Weight() - e)
    ensures Numerator(a) % Denominator(a) == 0
    ensures IsIntegralResult(mode, a, ExtFloat80(PackToExtF80UI64(a.Sign(), e), sigA))
  {
    Unpacked(a.Sign(), e, sigA);
    ScaledShift(a.signif, a.Weight() - e, a.Weight());
    ScaledShift(a.signif, a.Weight() - UNIT, a.Weight());
    RoundMagExact(mode, a.Sign(), Numerator(a), 1);
  }

  /** Rounds a to an integral value in the given mode: infinities and integral values are kept, NaNs
      propagate, and inexact is raised when asked for and the value changes. */
  method ExtF80RoundToInt(s: FloatState, a: ExtFloat80, mode: RoundingMode, exact: bool) returns (result: Outcome)
    modifies s`exceptionFlags
    ensures result.PropagatedNaN? <==> a.NaN()
    ensures result.Number? && !a.Finite() ==>
              result.z == ExtFloat80(PackToExtF80UI64(a.Sign(), 0x7FFF), TWO63) && s.exceptionFlags == old(s.exceptionFlags)
    ensures a.Finite() ==> IsIntegralResult(mode, a, result.z)
    ensures a.Finite() ==>
              s.exceptionFlags == old(s.exceptionFlags)
                                  + if exact && Numerator(a) % Denominator(a) != 0 then {Inexact} else {}
  {
    var exp: int, sigA: u64 := a.Exp(), a.signif;
    ghost var e: int := a.Weight();
    if exp == 0x7FFF {
      if sigA % 0x8000_0000_0000_0000 != 0 {
        return PropagatedNaN;
      }
      return Number(ExtFloat80(PackToExtF80UI64(a.Sign(), 0x7FFF), 0x8000_0000_0000_0000));
    }
    if sigA == 0 {
      ZeroValue(a, mode);
      return Number(ExtFloat80(PackToExtF80UI64(a.Sign(), 0), 0));
    }
    if sigA < 0x8000_0000_0000_0000 {
      var normExpSig := NormSubnormalExtF80Sig(sigA);
      exp, sigA, e := exp + normExpSig.exp, normExpSig.sig, e + normExpSig.exp;
    }
    var z := RoundNormalized(s, a, mode, exact, exp, sigA, e);
    result := Number(z);
  }

  lemma ZeroValue(a: ExtFloat80, mode: RoundingMode)
    requires a.signif == 0
    ensures Numerator(a) % Denominator(a) == 0
    ensures IsIntegralResult(mode, a, ExtFloat80(PackToExtF80UI64(a.Sign(), 0), 0))
  {
    ZeroResult(a.Sign());
    RoundMagExact(mode, a.Sign(), 0, Denominator(a));
  }

  // ----- what the operation promises

  /** The result is the rounding that the mode asks for of the exact value of a. */
  lemma IntegralResultIsRounding(mode: RoundingMode, a: ExtFloat80)
    ensures IsRounding(mode, Negate(a.Sign(), Numerator(a)), Denominator(a), Negate(a.Sign(), IntegralMag(mode, a)))
  {
    RoundMagIsRounding(mode, a.Sign(), Numerator(a), Denominator(a));
  }

  lemma FractionOfValue(a: ExtFloat80)
    ensures Numerator(a) * Pow2(UNIT + 64) == a.Mag() * Denominator(a)
  {
    if a.Weight() <= UNIT {
      Pow2Add(UNIT - a.Weight(), a.Weight() + 64);
      MulAssoc(a.signif, Pow2(a.Weight() + 64), Denominator(a));
    } else {
      ScaledShift(a.signif, a.Weight() - UNIT, a.Weight());
    }
  }

  lemma IntegralNumerator(z: ExtFloat80, m: nat)
    requires z.Mag() == Scaled(m, UNIT)
    ensures Numerator(z) == m * Denominator(z)
  {
    FractionOfValue(z);
    SameMultiple(Numerator(z), m, Denominator(z), Pow2(UNIT + 64));
  }

  lemma SameMultiple(num: int, m: int, den: int, u: int)
    requires u > 0 && num * u == m * u * den
    ensures num == m * den
  {
    assert m * u * den == (m * den) * u;
    MultiplesApart(num, m * den, u);
  }

  /** Rounding again, in any mode, changes nothing. */
  lemma RoundingIsIdempotent(mode: RoundingMode, again: RoundingMode, a: ExtFloat80, z: ExtFloat80)
    requires IsIntegralResult(mode, a, z)
    ensures IntegralMag(again, z) == IntegralMag(mode, a)
    ensures Numerator(z) % Denominator(z) == 0
  {
    var m, num, den := IntegralMag(mode, a), Numerator(z), Denominator(z);
    IntegralNumerator(z, m);
    RoundMagExact(again, z.Sign(), m, den);
    DivModUnique(num, den, m, 0);
  }

  /** Rounding keeps the order of values. */
  lemma RoundingIsMonotone(mode: RoundingMode, a: ExtFloat80, b: ExtFloat80, za: ExtFloat80, zb: ExtFloat80)
    requires IsIntegralResult(mode, a, za) && IsIntegralResult(mode, b, zb)
    requires a.Value() <= b.Value()
    ensures za.Value() <= zb.Value()
  {
    CrossMultiplied(a, b);
    RoundMagMonotone(mode, a.Sign(), Numerator(a), Denominator(a), b.Sign(), Numerator(b), Denominator(b));
    var u := Pow2(UNIT + 64);
    var ma, mb := Negate(a.Sign(), IntegralMag(mode, a)), Negate(b.Sign(), IntegralMag(mode, b));
    SignedProduct(a.Sign(), IntegralMag(mode, a), u);
    SignedProduct(b.Sign(), IntegralMag(mode, b), u);
    MulLe(ma, mb, u);
  }

  lemma CrossMultiplied(a: ExtFloat80, b: ExtFloat80)
    requires a.Value() <= b.Value()
    ensures Negate(a.Sign(), Numerator(a) * Denominator(b)) <= Negate(b.Sign(), Numerator(b) * Denominator(a))
  {
    var u, da, db := Pow2(UNIT + 64), Denominator(a), Denominator(b);
    FractionOfValue(a);
    FractionOfValue(b);
    CrossProducts(Numerator(a), a.Mag(), da, Numerator(b), b.Mag(), db, u);
    MulLt(0, da, db);
    SignedProduct(a.Sign(), a.Mag(), da * db);
    SignedProduct(b.Sign(), b.Mag(), da * db);
    MulLe(a.Value(), b.Value(), da * db);
    var x, y := Negate(a.Sign(), Numerator(a) * db), Negate(b.Sign(), Numerator(b) * da);
    SignedProduct(a.Sign(), Numerator(a) * db, u);
    SignedProduct(b.Sign(), Numerator(b) * da, u);
    if y < x {
      MulLt(y, x, u);
    }
  }

  lemma CrossProducts(na: int, ma: int, da: int, nb: int, mb: int, db: int, u: int)
    requires na * u == ma * da && nb * u == mb * db
    ensures na * db * u == ma * (da * db) && nb * da * u == mb * (da * db)
  {
    assert na * db * u == na * u * db;
    assert nb * da * u == nb * u * da;
  }
}

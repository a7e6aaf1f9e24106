/** Conversion of the 80-bit format to 32-bit and 64-bit integers by truncation: the fast forms, which
    work on whole values, and the forms that work on words in memory. On canonical encodings all of them
    truncate toward zero; the lemmas at the end of the contracts say exactly for which others they do. */
module ExtF80ToInt {
  import opened Words
  import opened PowersOfTwo
  import opened Primitives
  import opened Rounding
  import opened ExtF80

  // ----- what a truncating conversion is

  /** The magnitude of a finite value rounded down to an integer. */
  function TruncMag(a: ExtFloat80): nat {
    MulLe(0, a.signif, Pow2(if a.Exp() <= 0x403E then 0 else a.Exp() - 0x403E));
    if a.Exp() <= 0x403E then a.signif / Pow2(0x403E - a.Exp()) else a.signif * Pow2(a.Exp() - 0x403E)
  }

  predicate HasFraction(a: ExtFloat80) {
    a.Exp() <= 0x403E && a.signif % Pow2(0x403E - a.Exp()) != 0
  }

  /** Whether the truncated value is an integer from -limit to limit - 1. */
  predicate Fits(a: ExtFloat80, limit: int) {
    a.Finite() && -limit <= Negate(a.Sign(), TruncMag(a)) < limit
  }

  datatype Converted = Converted(z: int, raised: set<Flag>)

  function Overflowed(a: ExtFloat80, limit: int): Converted {
    Converted(if a.NaN() then limit - 1 else if a.Sign() then 0 - limit else limit - 1, {Invalid})
  }

  /** The answer out of range is the end of the range on the side of the operand, and the upper end for a NaN; k is
      any integer of the range. */
  lemma OverflowedSaturates(a: ExtFloat80, limit: int, k: int)
    requires -limit <= k < limit && !Fits(a, limit)
    ensures Overflowed(a, limit).raised == {Invalid} && -limit <= Overflowed(a, limit).z < limit
    ensures if a.Sign() && !(a.Exp() == 0x7FFF && a.signif % TWO63 != 0)
      then Overflowed(a, limit).z <= k else Overflowed(a, limit).z >= k
    ensures a.Finite() ==> if a.Sign() then 0 - TruncMag(a) < Overflowed(a, limit).z else TruncMag(a) > Overflowed(a, limit).z
  {
  }

  function Truncated(a: ExtFloat80, exact: bool, limit: int): Converted {
    if Fits(a, limit)
    then Converted(Negate(a.Sign(), TruncMag(a)), if exact && HasFraction(a) then {Inexact} else {})
    else Overflowed(a, limit)
  }

  /** Exponent zero, or the top bit of the significand set. */
  predicate Canonical(a: ExtFloat80) {
    a.Exp() == 0 || a.signif >= TWO63
  }

  /** Truncation is the rounding of the value toward zero that the standard asks for. */
  lemma TruncationIsRounding(a: ExtFloat80)
    requires 1 <= a.Exp() <= 0x403E
    ensures Pow2(0x403E - a.Exp()) > 0
    ensures IsRounding(MinMag, Negate(a.Sign(), a.signif), Pow2(0x403E - a.Exp()), Negate(a.Sign(), TruncMag(a)))
  {
    var p := Pow2(0x403E - a.Exp());
    DivMod(a.signif, p);
  }

  // ----- shifts

  /** A larger divisor gives no larger a quotient. */
  lemma QuotientFalls(n: nat, p: int, q: int)
    requires 0 < p <= q
    ensures 0 <= n / q <= n / p
  {
    var x, y := n / q, n / p;
    DivMod(n, q);
    DivMod(n, p);
    if x < 0 {
      MulLe(x, -1, q);
    }
    if x > y {
      MulLe(y + 1, x, p);
      MulLe(p, q, x);
    }
  }

  lemma ShiftBack(sig: nat, p: int)
    requires p > 0
    ensures 0 <= sig / p <= sig && (sig / p * p != sig <==> sig % p != 0)
  {
    DivMod(sig, p);
    QuotientFalls(sig, 1, p);
  }

  lemma SmallPowers()
    ensures Pow2(0) == 1 && Pow2(1) == 2 && Pow2(31) == TWO31 && Pow2(32) == TWO32 && Pow2(33) == 2 * TWO32
    ensures Pow2(63) == TWO63 && Pow2(64) == TWO64
  {
    Pow2Values();
  }

  /** How large the quotient of a shift can be. */
  lemma ShiftRange(sig: u64, d: nat, p: int)
    requires p == Pow2(d)
    ensures p > 0 && (d >= 64 ==> p >= TWO64) && (d >= 33 ==> sig / p < TWO31) && (d >= 1 ==> sig / p < TWO63)
    ensures sig >= TWO63 && d <= 32 ==> sig / p >= TWO31
    ensures sig >= TWO63 && d <= 31 ==> sig / p >= TWO32
    ensures d == 0 ==> sig / p == sig
    ensures d == 32 ==> p == TWO32
  {
    SmallPowers();
    if d >= 64 {
      Pow2Monotone(64, d);
    }
    if d >= 33 {
      Pow2Monotone(33, d);
      QuotientFalls(sig, 2 * TWO32, p);
    }
    if d >= 1 {
      Pow2Monotone(1, d);
      QuotientFalls(sig, 2, p);
    }
    if d <= 32 {
      Pow2Monotone(d, 32);
      QuotientFalls(sig, p, TWO32);
    }
    if d <= 31 {
      Pow2Monotone(d, 31);
      QuotientFalls(sig, p, TWO31);
    }
  }

  // ----- the truncated value, branch by branch

  predicate InRange(sign: bool, mag: nat, limit: int) {
    if sign then mag <= limit else mag < limit
  }

  lemma Far(a: ExtFloat80, exact: bool, limit: int)
    requires a.Exp() <= 0x403E - 64 && limit > 0
    ensures Truncated(a, exact, limit) == Converted(0, if exact && a.signif != 0 then {Inexact} else {})
  {
    var p := Pow2(0x403E - a.Exp());
    ShiftRange(a.signif, 0x403E - a.Exp(), p);
    DivModUnique(a.signif, p, 0, a.signif);
  }

  lemma Near(a: ExtFloat80, exact: bool, limit: int, p: int)
    requires a.Exp() <= 0x403E && p == Pow2(0x403E - a.Exp()) && limit > 0
    ensures 0 <= a.signif / p && (Fits(a, limit) <==> InRange(a.Sign(), a.signif / p, limit))
    ensures Truncated(a, exact, limit) ==
      if InRange(a.Sign(), a.signif / p, limit)
      then Converted(Negate(a.Sign(), a.signif / p), if exact && a.signif / p * p != a.signif then {Inexact} else {})
      else Overflowed(a, limit)
  {
    ShiftBack(a.signif, p);
  }

  lemma Wide(a: ExtFloat80, exact: bool, limit: int, p: int)
    requires a.Exp() > 0x403E && p == Pow2(a.Exp() - 0x403E) && limit > 0
    ensures 0 <= a.signif * p && p >= 2
    ensures Fits(a, limit) <==> a.Finite() && InRange(a.Sign(), a.signif * p, limit)
    ensures Truncated(a, exact, limit) ==
      if Fits(a, limit) then Converted(Negate(a.Sign(), a.signif * p), {}) else Overflowed(a, limit)
  {
    Pow2Monotone(1, a.Exp() - 0x403E);
    MulLe(0, a.signif, p);
  }

  // ----- the fast forms

  /** A fast form truncates exactly on these encodings. */
  predicate FastTruncates(a: ExtFloat80, exact: bool, limit: int, least: int) {
    if 0x403E - a.Exp() >= 64 then !(exact && a.signif == 0 && a.Exp() != 0)
    else 0x403E - a.Exp() >= least || a.signif >= TWO63 || !Fits(a, limit)
  }

  lemma CanonicalTruncates(a: ExtFloat80, exact: bool)
    requires Canonical(a)
    ensures FastTruncates(a, exact, TWO31, 33) && FastTruncates(a, exact, TWO63, 1)
  {
  }

  /** The magnitude of a normalized significand from exponent 0x401E on. */
  lemma LargeMagnitude(a: ExtFloat80, limit: int)
    requires a.signif >= TWO63 && ((limit == TWO31 && a.Exp() > 0x401E) || (limit == TWO63 && a.Exp() > 0x403E))
    ensures !Fits(a, limit)
  {
    if a.Exp() <= 0x403E {
      var p := Pow2(0x403E - a.Exp());
      ShiftRange(a.signif, 0x403E - a.Exp(), p);
      Near(a, false, limit, p);
    } else {
      var p := Pow2(a.Exp() - 0x403E);
      Wide(a, false, limit, p);
      MulLe(2, p, a.signif);
    }
  }

  method ExtF80ToI32(s: FloatState, a: ExtFloat80, exact: bool) returns (z: int, ghost raised: set<Flag>)
    modifies s`exceptionFlags
    ensures s.exceptionFlags == old(s.exceptionFlags) + raised
    ensures Converted(z, raised) == Truncated(a, exact, TWO31) <==> FastTruncates(a, exact, TWO31, 33)
  {
    var shiftDist: int := 0x403E - a.Exp();
    if 64 <= shiftDist {
      z, raised := FastFar(s, a, exact, TWO31);
    } else if shiftDist < 33 {
      z, raised := FastLarge32(s, a, exact);
    } else {
      z, raised := FastNear32(s, a, exact);
    }
  }

  method FastFar(s: FloatState, a: ExtFloat80, exact: bool, ghost limit: int) returns (z: int, ghost raised: set<Flag>)
    requires a.Exp() <= 0x403E - 64 && limit > 0
    modifies s`exceptionFlags
    ensures s.exceptionFlags == old(s.exceptionFlags) + raised
    ensures Converted(z, raised) == Truncated(a, exact, limit) <==> !(exact && a.signif == 0 && a.Exp() != 0)
  {
    Far(a, exact, limit);
    raised := RaiseIf(s, exact && (a.Exp() != 0 || a.signif != 0), Inexact);
    z := 0;
  }

  method FastLarge32(s: FloatState, a: ExtFloat80, exact: bool) returns (z: int, ghost raised: set<Flag>)
    requires 0x403E - a.Exp() < 33
    modifies s`exceptionFlags
    ensures s.exceptionFlags == old(s.exceptionFlags) + raised
    ensures Converted(z, raised) == Truncated(a, exact, TWO31) <==> a.signif >= TWO63 || !Fits(a, TWO31)
  {
    if a.signExp == PackToExtF80UI64(true, 0x401E) && a.signif < 0x8000_0001_0000_0000 {
      MostNegative32(a, exact);
      raised := RaiseIf(s, exact && a.signif % TWO32 != 0, Inexact);
      z := -0x7FFF_FFFF - 1;
    } else {
      NotMostNegative32(a, exact);
      z, raised := RaiseInvalid(s, a, TWO31);
    }
  }

  method FastNear32(s: FloatState, a: ExtFloat80, exact: bool) returns (z: int, ghost raised: set<Flag>)
    requires 33 <= 0x403E - a.Exp() < 64
    modifies s`exceptionFlags
    ensures s.exceptionFlags == old(s.exceptionFlags) + raised
    ensures Converted(z, raised) == Truncated(a, exact, TWO31)
  {
    var shiftDist := 0x403E - a.Exp();
    var p := Pow2(shiftDist);
    ShiftRange(a.signif, shiftDist, p);
    Near(a, exact, TWO31, p);
    var absZ := a.signif / p;
    raised := RaiseIf(s, exact && absZ * p != a.signif, Inexact);
    z := if a.Sign() then 0 - absZ else absZ;
  }

  method RaiseIf(s: FloatState, b: bool, flag: Flag) returns (ghost raised: set<Flag>)
    modifies s`exceptionFlags
    ensures raised == (if b then {flag} else {}) && s.exceptionFlags == old(s.exceptionFlags) + raised
  {
    raised := {};
    if b {
      s.RaiseFlags({flag});
      raised := {flag};
    }
  }

  method RaiseInvalid(s: FloatState, a: ExtFloat80, limit: int) returns (z: int, ghost raised: set<Flag>)
    modifies s`exceptionFlags
    ensures s.exceptionFlags == old(s.exceptionFlags) + raised && Converted(z, raised) == Overflowed(a, limit)
  {
    s.RaiseFlags({Invalid});
    raised := {Invalid};
    z := if a.NaN() then limit - 1 else if a.Sign() then 0 - limit else limit - 1;
  }

  lemma MostNegative32(a: ExtFloat80, exact: bool)
    requires a.signExp == PackToExtF80UI64(true, 0x401E) && a.signif < 0x8000_0001_0000_0000
    ensures Fits(a, TWO31)
    ensures Converted(0 - TWO31, if exact && a.signif % TWO32 != 0 then {Inexact} else {}) == Truncated(a, exact, TWO31)
        <==> a.signif >= TWO63
  {
    Unpacked(true, 0x401E, a.signif);
    ShiftRange(a.signif, 32, Pow2(32));
    Near(a, exact, TWO31, TWO32);
    ShiftBack(a.signif, TWO32);
  }

  lemma NotMostNegative32(a: ExtFloat80, exact: bool)
    requires 0x403E - a.Exp() < 33
    requires !(a.signExp == PackToExtF80UI64(true, 0x401E) && a.signif < 0x8000_0001_0000_0000)
    ensures a.signif >= TWO63 ==> !Fits(a, TWO31)
    ensures Truncated(a, exact, TWO31) == Overflowed(a, TWO31) <==> !Fits(a, TWO31)
  {
    if a.signif >= TWO63 {
      if a.Exp() > 0x401E {
        LargeMagnitude(a, TWO31);
      } else {
        SmallPowers();
        Near(a, exact, TWO31, TWO32);
      }
    }
  }

  method ExtF80ToI64(s: FloatState, a: ExtFloat80, exact: bool) returns (z: int, ghost raised: set<Flag>)
    modifies s`exceptionFlags
    ensures s.exceptionFlags == old(s.exceptionFlags) + raised
    ensures Converted(z, raised) == Truncated(a, exact, TWO63) <==> FastTruncates(a, exact, TWO63, 1)
  {
    var shiftDist: int := 0x403E - a.Exp();
    if 64 <= shiftDist {
      z, raised := FastFar(s, a, exact, TWO63);
    } else if shiftDist <= 0 {
      z, raised := FastLarge64(s, a, exact);
    } else {
      z, raised := FastNear64(s, a, exact);
    }
  }

  method FastLarge64(s: FloatState, a: ExtFloat80, exact: bool) returns (z: int, ghost raised: set<Flag>)
    requires a.Exp() >= 0x403E
    modifies s`exceptionFlags
    ensures s.exceptionFlags == old(s.exceptionFlags) + raised
    ensures Converted(z, raised) == Truncated(a, exact, TWO63) <==> a.signif >= TWO63 || !Fits(a, TWO63)
  {
    if a.signExp == PackToExtF80UI64(true, 0x403E) && a.signif == TWO63 {
      MostNegative64(a, exact);
      raised := {};
      z := -0x7FFF_FFFF_FFFF_FFFF - 1;
    } else {
      NotMostNegative64(a, exact);
      z, raised := RaiseInvalid(s, a, TWO63);
    }
  }

  method FastNear64(s: FloatState, a: ExtFloat80, exact: bool) returns (z: int, ghost raised: set<Flag>)
    requires 1 <= 0x403E - a.Exp() < 64
    modifies s`exceptionFlags
    ensures s.exceptionFlags == old(s.exceptionFlags) + raised
    ensures Converted(z, raised) == Truncated(a, exact, TWO63)
  {
    var shiftDist := 0x403E - a.Exp();
    var p := Pow2(shiftDist);
    ShiftRange(a.signif, shiftDist, p);
    Near(a, exact, TWO63, p);
    LowBits(a.signif, shiftDist, p);
    var absZ := a.signif / p;
    raised := RaiseIf(s, exact && a.signif * Pow2(64 - shiftDist) % TWO64 != 0, Inexact);
    z := if a.Sign() then 0 - absZ else absZ;
  }

  lemma MostNegative64(a: ExtFloat80, exact: bool)
    requires a.signExp == PackToExtF80UI64(true, 0x403E) && a.signif == TWO63
    ensures Truncated(a, exact, TWO63) == Converted(0 - TWO63, {})
  {
    SmallPowers();
    Unpacked(true, 0x403E, a.signif);
    Near(a, exact, TWO63, 1);
  }

  lemma NotMostNegative64(a: ExtFloat80, exact: bool)
    requires a.Exp() >= 0x403E && !(a.signExp == PackToExtF80UI64(true, 0x403E) && a.signif == TWO63)
    ensures a.signif >= TWO63 ==> !Fits(a, TWO63)
    ensures Truncated(a, exact, TWO63) == Overflowed(a, TWO63) <==> !Fits(a, TWO63)
  {
    if a.signif >= TWO63 {
      if a.Exp() == 0x403E {
        SmallPowers();
        Near(a, exact, TWO63, 1);
      } else {
        LargeMagnitude(a, TWO63);
      }
    }
  }

  /** The bits shifted off to the right are those that a shift the other way keeps in the word. */
  lemma LowBits(sig: u64, d: nat, p: int)
    requires 1 <= d <= 63 && p == Pow2(d)
    ensures p > 0 && (sig * Pow2(64 - d) % TWO64 != 0 <==> sig / p * p != sig)
  {
    Pow2Add(64 - d, d);
    SmallPowers();
    MulModMul(sig, Pow2(64 - d), p);
    ShiftBack(sig, p);
    ProductZero(Pow2(64 - d), sig % p);
  }

  lemma ProductZero(p: int, r: int)
    requires p > 0 && r >= 0
    ensures p * r != 0 <==> r != 0
  {
    if r > 0 {
      MulLe(1, r, p);
    }
  }

  // ----- the word forms

  /** A word form truncates everywhere but on one unnormal encoding of the most negative integer. */
  predicate WordTruncates(a: ExtFloat80, most: int) {
    !(a.Sign() && a.signif == 1 && a.Exp() == 0x403E + most)
  }

  /** The last steps of both: the magnitude is given its sign if it fits. */
  method Finish(s: FloatState, a: ExtFloat80, exact: bool, limit: int, absZ: nat, raiseInexact: bool)
      returns (z: int, ghost raised: set<Flag>)
    requires Truncated(a, exact, limit) == if InRange(a.Sign(), absZ, limit)
      then Converted(Negate(a.Sign(), absZ), if raiseInexact then {Inexact} else {}) else Overflowed(a, limit)
    modifies s`exceptionFlags
    ensures s.exceptionFlags == old(s.exceptionFlags) + raised && Converted(z, raised) == Truncated(a, exact, limit)
  {
    if (a.Sign() && limit < absZ) || (!a.Sign() && limit <= absZ) {
      z, raised := RaiseInvalid(s, a, limit);
    } else {
      z := if a.Sign() then 0 - absZ else absZ;
      raised := RaiseIf(s, raiseInexact, Inexact);
    }
  }

  lemma ZeroTruncates(a: ExtFloat80, exact: bool, limit: int)
    requires a.signif == 0 && a.Finite() && limit > 0
    ensures Truncated(a, exact, limit) == Converted(0, {})
  {
    if a.Exp() <= 0x403E {
      Near(a, exact, limit, Pow2(0x403E - a.Exp()));
      DivModUnique(0, Pow2(0x403E - a.Exp()), 0, 0);
    }
  }

  /** A shift to the left that reaches the sign position: only a lone bit moved right there is in range. */
  lemma WideShift(a: ExtFloat80, exact: bool, most: nat, limit: int)
    requires a.Exp() >= 0x403E + most && limit == Pow2(most) && most > 0 && (a.signif > 0 || !a.Finite()) && most < 100
    ensures Truncated(a, exact, limit) == Overflowed(a, limit) <==> WordTruncates(a, most)
  {
    var d := a.Exp() - 0x403E;
    var p := Pow2(d);
    Wide(a, exact, limit, p);
    Pow2Monotone(most, d);
    MulLe(limit, p, a.signif);
    if a.signif >= 1 {
      MulLe(1, a.signif, p);
    }
    if a.signif >= 2 {
      MulLe(2, a.signif, p);
    }
    if d > most {
      Pow2Monotone(most + 1, d);
    }
  }

  method ExtF80MToI32(s: FloatState, a: ExtFloat80, exact: bool) returns (z: int, ghost raised: set<Flag>)
    modifies s`exceptionFlags
    ensures s.exceptionFlags == old(s.exceptionFlags) + raised
    ensures Converted(z, raised) == Truncated(a, exact, TWO31) <==> WordTruncates(a, 31)
  {
    raised := {};
    var exp: int, sig: u64 := a.Exp(), a.signif;
    if sig == 0 && exp != 0x7FFF {
      ZeroTruncates(a, exact, TWO31);
      return 0, raised;
    }
    var shiftDist := 0x403E - exp;
    if 64 <= shiftDist {
      Far(a, exact, TWO31);
      raised := RaiseIf(s, exact, Inexact);
      return 0, raised;
    }
    if shiftDist < 0 {
      z, raised := WordLeft32(s, a, exact);
    } else {
      var p := Pow2(shiftDist);
      Near(a, exact, TWO31, p);
      ShiftBack(sig, p);
      var shiftedSig := sig / p;
      if shiftedSig / TWO32 != 0 {
        z, raised := RaiseInvalid(s, a, TWO31);
        return;
      }
      var raiseInexact := exact && shiftDist != 0 && shiftedSig * p != sig;
      SmallPowers();
      z, raised := Finish(s, a, exact, TWO31, shiftedSig, raiseInexact);
    }
  }

  method WordLeft32(s: FloatState, a: ExtFloat80, exact: bool) returns (z: int, ghost raised: set<Flag>)
    requires a.Exp() > 0x403E && (a.signif > 0 || !a.Finite())
    modifies s`exceptionFlags
    ensures s.exceptionFlags == old(s.exceptionFlags) + raised
    ensures Converted(z, raised) == Truncated(a, exact, TWO31) <==> WordTruncates(a, 31)
  {
    var d := a.Exp() - 0x403E;
    var p := Pow2(d);
    SmallPowers();
    Wide(a, exact, TWO31, p);
    MulLe(2, p, a.signif);
    if d >= 31 {
      WideShift(a, exact, 31, TWO31);
    }
    if a.signif / TWO32 != 0 || d >= 31 {
      z, raised := RaiseInvalid(s, a, TWO31);
      return;
    }
    var shiftedSig := a.signif * p;
    if shiftedSig / TWO32 != 0 {
      z, raised := RaiseInvalid(s, a, TWO31);
      return;
    }
    z, raised := Finish(s, a, exact, TWO31, shiftedSig, false);
  }

  method ExtF80MToI64(s: FloatState, a: ExtFloat80, exact: bool) returns (z: int, ghost raised: set<Flag>)
    modifies s`exceptionFlags
    ensures s.exceptionFlags == old(s.exceptionFlags) + raised
    ensures Converted(z, raised) == Truncated(a, exact, TWO63) <==> WordTruncates(a, 63)
  {
    raised := {};
    var exp: int, sig: u64 := a.Exp(), a.signif;
    if sig == 0 && exp != 0x7FFF {
      ZeroTruncates(a, exact, TWO63);
      return 0, raised;
    }
    var shiftDist := 0x403E - exp;
    if 64 <= shiftDist {
      Far(a, exact, TWO63);
      raised := RaiseIf(s, exact, Inexact);
      return 0, raised;
    }
    if shiftDist < 0 {
      z, raised := WordLeft64(s, a, exact);
    } else {
      var p := Pow2(shiftDist);
      Near(a, exact, TWO63, p);
      ShiftBack(sig, p);
      var absZ := sig / p;
      var raiseInexact := exact && shiftDist != 0 && absZ * p != sig;
      SmallPowers();
      z, raised := Finish(s, a, exact, TWO63, absZ, raiseInexact);
    }
  }

  method WordLeft64(s: FloatState, a: ExtFloat80, exact: bool) returns (z: int, ghost raised: set<Flag>)
    requires a.Exp() > 0x403E && (a.signif > 0 || !a.Finite())
    modifies s`exceptionFlags
    ensures s.exceptionFlags == old(s.exceptionFlags) + raised
    ensures Converted(z, raised) == Truncated(a, exact, TWO63) <==> WordTruncates(a, 63)
  {
    var d := a.Exp() - 0x403E;
    var p := Pow2(d);
    SmallPowers();
    Wide(a, exact, TWO63, p);
    if d >= 63 {
      WideShift(a, exact, 63, TWO63);
      z, raised := RaiseInvalid(s, a, TWO63);
      return;
    }
    ShiftLoses(a.signif, d, p);
    var absZ := a.signif * p % TWO64;
    if absZ / p != a.signif {
      z, raised := RaiseInvalid(s, a, TWO63);
      return;
    }
    assert absZ == a.signif * p;
    z, raised := Finish(s, a, exact, TWO63, absZ, false);
  }

  /** Shifting back finds out whether bits were lost. */
  lemma ShiftLoses(sig: u64, d: nat, p: int)
    requires 1 <= d <= 63 && p == Pow2(d)
    ensures p > 0 && sig * p >= 0
    ensures sig * p % TWO64 / p == sig <==> sig * p < TWO64
  {
    var q := Pow2(64 - d);
    Pow2Add(d, 64 - d);
    SmallPowers();
    MulLe(0, sig, p);
    MulModMul(sig, p, q);
    DivModUnique(p * (sig % q), p, sig % q, 0);
    LostBits(sig, p, q);
  }

  lemma LostBits(sig: nat, p: int, q: int)
    requires p > 0 && q > 0 && p * q == TWO64
    ensures sig % q == sig <==> sig * p < TWO64
  {
    if sig < q {
      MulLt(sig, q, p);
      DivModUnique(sig, q, 0, sig);
    } else {
      MulLe(q, sig, p);
    }
  }

  /** A zero with an exponent: it truncates to zero exactly, and the fast forms raise inexact; the word forms
      do not. */
  lemma ZeroWithExponent()
    ensures var a := ExtFloat80(1, 0);
      && Truncated(a, true, TWO31) == Converted(0, {}) == Truncated(a, true, TWO63)
      && !FastTruncates(a, true, TWO31, 33) && !FastTruncates(a, true, TWO63, 1)
      && WordTruncates(a, 31) && WordTruncates(a, 63)
  {
    ZeroTruncates(ExtFloat80(1, 0), true, TWO31);
    ZeroTruncates(ExtFloat80(1, 0), true, TWO63);
  }

  /** A one with its only bit at the bottom of the significand: the fast forms take it for out of range. */
  lemma LowOne(exact: bool)
    ensures var a := ExtFloat80(0x403E, 1);
      && Truncated(a, exact, TWO31) == Converted(1, {}) == Truncated(a, exact, TWO63)
      && !FastTruncates(a, exact, TWO31, 33) && !FastTruncates(a, exact, TWO63, 1)
      && WordTruncates(a, 31) && WordTruncates(a, 63)
  {
    var a := ExtFloat80(0x403E, 1);
    SmallPowers();
    Near(a, exact, TWO31, 1);
    Near(a, exact, TWO63, 1);
  }

  /** The most negative integers with a lone bit at the bottom: no form converts them. */
  lemma LowMostNegative(exact: bool)
    ensures var a := ExtFloat80(0x8000 + 0x403E + 31, 1);
      Truncated(a, exact, TWO31) == Converted(0 - TWO31, {}) && !FastTruncates(a, exact, TWO31, 33) && !WordTruncates(a, 31)
    ensures var a := ExtFloat80(0x8000 + 0x403E + 63, 1);
      Truncated(a, exact, TWO63) == Converted(0 - TWO63, {}) && !FastTruncates(a, exact, TWO63, 1) && !WordTruncates(a, 63)
  {
    SmallPowers();
    Wide(ExtFloat80(0x8000 + 0x403E + 31, 1), exact, TWO31, TWO31);
    Wide(ExtFloat80(0x8000 + 0x403E + 63, 1), exact, TWO63, TWO63);
  }

  /** On canonical encodings the fast and the word form return the same integer and raise the same flags. */
  method BothTo32(s: FloatState, a: ExtFloat80, exact: bool)
      returns (fast: int, word: int, ghost raisedFast: set<Flag>, ghost raisedWord: set<Flag>)
    modifies s`exceptionFlags
    ensures Canonical(a) ==> fast == word && raisedFast == raisedWord
    ensures Canonical(a) ==> Converted(fast, raisedFast) == Truncated(a, exact, TWO31)
  {
    if Canonical(a) {
      CanonicalTruncates(a, exact);
    }
    fast, raisedFast := ExtF80ToI32(s, a, exact);
    word, raisedWord := ExtF80MToI32(s, a, exact);
  }

  method BothTo64(s: FloatState, a: ExtFloat80, exact: bool)
      returns (fast: int, word: int, ghost raisedFast: set<Flag>, ghost raisedWord: set<Flag>)
    modifies s`exceptionFlags
    ensures Canonical(a) ==> fast == word && raisedFast == raisedWord
    ensures Canonical(a) ==> Converted(fast, raisedFast) == Truncated(a, exact, TWO63)
  {
    if Canonical(a) {
      CanonicalTruncates(a, exact);
    }
    fast, raisedFast := ExtF80ToI64(s, a, exact);
    word, raisedWord := ExtF80MToI64(s, a, exact);
  }
}

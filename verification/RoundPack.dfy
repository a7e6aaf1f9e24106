/** Rounding and packing of an 80-bit result from a 64-bit significand and its extra word. */
module RoundPack {
  import opened Words
  import opened PowersOfTwo
  import opened Primitives
  import opened Rounding
  import opened ExtF80

  /** sig is the floor of num / den, and extra compares with zero and with one half of its word
      exactly as the discarded remainder compares with zero and with one half of den. */
  ghost predicate Represents(sig: u64, extra: u64, num: nat, den: int) {
    den > 0 && num / den == sig && Compares(extra, num % den, den)
  }

  ghost predicate Compares(extra: u64, r: int, den: int) {
    (extra == 0 <==> r == 0) && (extra < TWO63 <==> 2 * r < den) && (extra == TWO63 <==> 2 * r == den)
  }

  datatype SigExtra = SigExtra(v: u64, extra: u64)

  /** ORs a sticky bit into a word. */
  function Jam(e: nat, extra: u64): nat {
    if extra != 0 && e % 2 == 0 then e + 1 else e
  }

  /** Right shift of the 128 bits sig:extra by dist places, jamming what falls off. */
  function ShiftRightJam64Extra(a: u64, extra: u64, dist: nat): (z: SigExtra)
    requires dist > 0
  {
    var v := if dist < 64 then a / Pow2(dist) else 0;
    var e := if dist < 64 then a * Pow2(64 - dist) % TWO64
             else if dist == 64 || a == 0 then a else 1;
    QuotientBound(a, Pow2(dist));
    SigExtra(v, Jam(e, extra))
  }

  lemma QuotientBound(a: u64, p: int)
    requires p > 0
    ensures 0 <= a / p <= a
  {
    DivMod(a, p);
    if a / p > a {
      MulLe(1, p, a / p);
    }
  }

  /** Dividing num, whose quotient by den is a and remainder r, by den * p instead. */
  lemma NestedQuotient(num: nat, a: nat, r: nat, den: int, p: int)
    requires 0 <= r < den && p > 0 && num == a * den + r
    ensures den * p > 0
    ensures num / (den * p) == a / p
    ensures num % (den * p) == a % p * den + r
  {
    var v, s := a / p, a % p;
    DivMod(a, p);
    MulLe(s, p - 1, den);
    MulLe(0, s, den);
    assert (p - 1) * den == p * den - den;
    MulAssoc(v, p, den);
    assert (v * p + s) * den == v * p * den + s * den;
    DivModUnique(num, p * den, v, s * den + r);
  }

  lemma DoubleProduct(x: int, h: int, p: int)
    requires p == 2 * h
    ensures x * p == 2 * (h * x)
  {
  }

  lemma JamCompares(s: nat, h: nat, p: nat, q: nat, extra: u64, r: nat, den: int)
    requires h > 0 && q > 0 && q * h == TWO63 && p == 2 * h && s < p
    requires 0 <= r < den && (extra == 0 <==> r == 0)
    ensures 0 <= q * s < TWO64 && Jam(q * s, extra) < TWO64
    ensures Compares(Jam(q * s, extra), s * den + r, den * p)
  {
    DoubleProduct(q, h, p);
    DoubleProduct(den, h, p);
    MultiplesApart(s, p, q);
    MultiplesApart(s, h, q);
    MultiplesApart(0, s, q);
    JamWords(s, h, q * s, q, extra, r, s * den, h * den, den) by {
      MultiplesApart(s, h, den);
      MultiplesApart(0, s, den);
    }
  }

  /** The comparison on plain numbers: e, sd, hd stand for the products q * s, s * den, h * den. */
  lemma JamWords(s: nat, h: nat, e: nat, q: nat, extra: u64, r: nat, sd: nat, hd: nat, den: int)
    requires 0 <= r < den && q > 0 && (extra == 0 <==> r == 0)
    requires s < h ==> e + q <= TWO63 && sd + den <= hd
    requires s == h ==> e == TWO63 && sd == hd
    requires s > h ==> TWO63 + q <= e && hd + den <= sd
    requires e < TWO64
    requires if s == 0 then e == 0 && sd == 0 else e > 0 && sd > 0
    ensures Jam(e, extra) < TWO64 && Compares(Jam(e, extra), sd + r, 2 * hd)
  {
  }

  lemma FarShift(a: u64, extra: u64, r: nat, den: int, p: int)
    requires p >= 2 * TWO64 && 0 <= r < den && (extra == 0 <==> r == 0)
    ensures Compares(if a == 0 then (if extra != 0 then 1 else 0) else 1, a * den + r, den * p)
  {
    MulLe(a + 1, TWO64, den);
    MulLe(2 * TWO64, p, den);
    MulLe(0, a, den);
    if a > 0 {
      MulLe(1, a, den);
    }
  }

  lemma PowerParts(dist: nat)
    requires 0 < dist <= 64
    ensures Pow2(64 - dist) * Pow2(dist) == TWO64 && Pow2(64 - dist) * Pow2(dist - 1) == TWO63
    ensures Pow2(dist) == 2 * Pow2(dist - 1)
  {
    Pow2Values();
    Pow2Add(64 - dist, dist);
    Pow2Add(64 - dist, dist - 1);
  }

  lemma ShiftedOut(a: u64, p: int, q: int)
    requires p > 0 && q > 0 && q * p == TWO64
    ensures a * q % TWO64 == q * (a % p)
    ensures q == 1 ==> a / p == 0 && a % p == a
  {
    MulModMul(a, q, p);
  }

  lemma NearWord(a: u64, extra: u64, dist: nat)
    requires 0 < dist <= 64
    ensures ShiftRightJam64Extra(a, extra, dist).v == a / Pow2(dist)
    ensures ShiftRightJam64Extra(a, extra, dist).extra == Jam(a * Pow2(64 - dist) % TWO64, extra)
  {
    if dist == 64 {
      PowerParts(dist);
      ShiftedOut(a, Pow2(dist), Pow2(64 - dist));
    }
  }

  lemma NearShift(a: u64, extra: u64, r: nat, den: int, dist: nat)
    requires 0 < dist <= 64 && 0 <= r < den && (extra == 0 <==> r == 0)
    ensures ShiftRightJam64Extra(a, extra, dist).v == a / Pow2(dist)
    ensures Compares(ShiftRightJam64Extra(a, extra, dist).extra, a % Pow2(dist) * den + r, den * Pow2(dist))
  {
    NearWord(a, extra, dist);
    PowerParts(dist);
    ShiftedOut(a, Pow2(dist), Pow2(64 - dist));
    JamCompares(a % Pow2(dist), Pow2(dist - 1), Pow2(dist), Pow2(64 - dist), extra, r, den);
  }

  lemma BeyondWord(dist: nat)
    requires dist > 64
    ensures Pow2(dist) >= 2 * TWO64
  {
    Pow2Values();
    Pow2Monotone(65, dist);
  }

  /** Jamming keeps every comparison that rounding can ask for. */
  lemma JamRepresents(a: u64, extra: u64, num: nat, den: int, dist: nat)
    requires dist > 0 && Represents(a, extra, num, den)
    ensures den * Pow2(dist) > 0
    ensures Represents(ShiftRightJam64Extra(a, extra, dist).v, ShiftRightJam64Extra(a, extra, dist).extra,
                       num, den * Pow2(dist))
  {
    var p, r := Pow2(dist), num % den;
    DivMod(num, den);
    NestedQuotient(num, a, r, den, p);
    if dist <= 64 {
      NearShift(a, extra, r, den, dist);
    } else {
      BeyondWord(dist);
      DivModUnique(a, p, 0, a);
      FarShift(a, extra, r, den, p);
    }
  }

  function OverflowToInfinity(mode: RoundingMode, sign: bool): bool {
    mode.NearEven? || mode.NearMaxMag? || mode == if sign then Min else Max
  }

  /** The encoding that num / den * 2^exp rounds to in the 80-bit format: to a multiple of 2^exp
      when exp is a normal exponent, to a multiple of 2^1 when it is lower. */
  ghost function Rounded(mode: RoundingMode, sign: bool, exp: int, num: nat, den: int): ExtFloat80
    requires den > 0 && num / den < TWO64
  {
    if exp <= 0 then
      var m := SubnormalRounding(mode, sign, exp, num, den);
      ExtFloat80(PackToExtF80UI64(sign, if m < TWO63 then 0 else 1), m)
    else
      var m := RoundMag(mode, sign, num, den);
      if exp > 0x7FFE || (exp == 0x7FFE && m == TWO64) then
        if OverflowToInfinity(mode, sign) then ExtFloat80(PackToExtF80UI64(sign, 0x7FFF), TWO63)
        else ExtFloat80(PackToExtF80UI64(sign, 0x7FFE), TWO64 - 1)
      else if m == TWO64 then ExtFloat80(PackToExtF80UI64(sign, exp + 1), TWO63)
      else ExtFloat80(PackToExtF80UI64(sign, exp), m)
  }

  lemma HalfQuotient(a: nat, p: int)
    requires a < TWO64 && p >= 2
    ensures a / p < TWO63
  {
    DivMod(a, p);
    MulLe(2, p, a / p);
  }

  ghost function SubnormalRounding(mode: RoundingMode, sign: bool, exp: int, num: nat, den: int): (m: u64)
    requires den > 0 && num / den < TWO64 && exp <= 0
    ensures m <= TWO63
  {
    var p := Pow2(1 - exp);
    DivMod(num, den);
    NestedQuotient(num, num / den, num % den, den, p);
    Pow2Monotone(1, 1 - exp);
    HalfQuotient(num / den, p);
    RoundMag(mode, sign, num, den * p)
  }

  lemma ScaledDenominator(num: nat, den: int, p: int)
    requires den > 0 && p > 0
    ensures den * p > 0
  {
    MulLt(0, den, p);
  }

  /** The exceptions that rounding num / den * 2^exp to the 80-bit format raises. */
  ghost function RoundedFlags(mode: RoundingMode, before: bool, sign: bool, exp: int, num: nat, den: int): set<Flag>
    requires den > 0 && num / den < TWO64
  {
    var m := RoundMag(mode, sign, num, den);
    if exp <= 0 then
      ScaledDenominator(num, den, Pow2(1 - exp));
      if num % (den * Pow2(1 - exp)) == 0 then {}
      else if before || exp < 0 || m < TWO64 then {Inexact, Underflow}
      else {Inexact}
    else if exp > 0x7FFE || (exp == 0x7FFE && m == TWO64) then {Overflow, Inexact}
    else if num % den == 0 then {}
    else {Inexact}
  }

  predicate DoIncrement(mode: RoundingMode, sign: bool, sigExtra: u64) {
    if mode.NearEven? || mode.NearMaxMag? then sigExtra >= TWO63
    else mode == (if sign then Min else Max) && sigExtra != 0
  }

  /** Increment, then clear the last bit when the discarded part was a tie to be broken to even. */
  function Incremented(mode: RoundingMode, sig: nat, sigExtra: u64): nat {
    if mode.NearEven? && sigExtra % TWO63 == 0 then (sig + 1) / 2 * 2 else sig + 1
  }

  lemma IncrementRounds(mode: RoundingMode, sign: bool, sig: u64, extra: u64, r: int, den: int)
    requires 0 <= r < den && Compares(extra, r, den)
    ensures (if RoundsUp(mode, sign, sig, r, den) then sig + 1 else sig)
            == if mode.Odd? then (if extra != 0 && sig % 2 == 0 then sig + 1 else sig)
               else if DoIncrement(mode, sign, extra) then Incremented(mode, sig, extra)
               else sig
  {
  }

  /** Rounds sig:sigExtra * 2^exp to 64 significant bits (fewer below the normal range) and packs it.
      num / den is the exact value of which sig is the floor and sigExtra the jammed fraction. */
  method RoundPackToExtF80(s: FloatState, sign: bool, exp: int, sig: u64, sigExtra: u64, ghost num: nat, ghost den: int)
    returns (z: ExtFloat80)
    requires Represents(sig, sigExtra, num, den)
    requires exp > 0 ==> sig >= TWO63
    modifies s`exceptionFlags
    ensures z == Rounded(s.roundingMode, sign, exp, num, den)
    ensures s.exceptionFlags == old(s.exceptionFlags)
              + RoundedFlags(s.roundingMode, s.tininessBeforeRounding, sign, exp, num, den)
  {
    var doIncrement := DoIncrement(s.roundingMode, sign, sigExtra);
    if exp <= 0 {
      var isTiny := s.tininessBeforeRounding || exp < 0 || !doIncrement || sig < 0xFFFF_FFFF_FFFF_FFFF;
      var sig64Extra := ShiftRightJam64Extra(sig, sigExtra, 1 - exp);
      SubnormalArguments(s.roundingMode, sign, exp, sig, sigExtra, num, den);
      z := PackSubnormal(s, sign, sig64Extra.v, sig64Extra.extra, isTiny, num, den * Pow2(1 - exp));
    } else {
      z := PackNormal(s, sign, exp, sig, sigExtra, doIncrement, num, den);
    }
  }

  lemma SubnormalArguments(mode: RoundingMode, sign: bool, exp: int, sig: u64, sigExtra: u64, num: nat, den: int)
    requires Represents(sig, sigExtra, num, den) && exp <= 0
    ensures den * Pow2(1 - exp) > 0
    ensures var z := ShiftRightJam64Extra(sig, sigExtra, 1 - exp);
            z.v < TWO63 && Represents(z.v, z.extra, num, den * Pow2(1 - exp))
    ensures RoundMag(mode, sign, num, den) < TWO64
            <==> !DoIncrement(mode, sign, sigExtra) || sig < 0xFFFF_FFFF_FFFF_FFFF
  {
    JamRepresents(sig, sigExtra, num, den, 1 - exp);
    Pow2Monotone(1, 1 - exp);
    HalfQuotient(sig, Pow2(1 - exp));
    IncrementRounds(mode, sign, sig, sigExtra, num % den, den);
  }

  /** The branch for normal exponents and overflow. */
  method PackNormal(s: FloatState, sign: bool, exp: nat, sig: u64, sigExtra: u64, doIncrement: bool,
                    ghost num: nat, ghost den: int)
    returns (z: ExtFloat80)
    requires Represents(sig, sigExtra, num, den) && exp > 0
    requires doIncrement == DoIncrement(s.roundingMode, sign, sigExtra)
    modifies s`exceptionFlags
    ensures z == Rounded(s.roundingMode, sign, exp, num, den)
    ensures s.exceptionFlags == old(s.exceptionFlags)
              + RoundedFlags(s.roundingMode, s.tininessBeforeRounding, sign, exp, num, den)
  {
    var mode := s.roundingMode;
    IncrementRounds(mode, sign, sig, sigExtra, num % den, den);
    if exp > 0x7FFE || (exp == 0x7FFE && sig == 0xFFFF_FFFF_FFFF_FFFF && doIncrement) {
      s.RaiseFlags({Overflow, Inexact});
      if OverflowToInfinity(mode, sign) {
        return ExtFloat80(PackToExtF80UI64(sign, 0x7FFF), 0x8000_0000_0000_0000);
      } else {
        return ExtFloat80(PackToExtF80UI64(sign, 0x7FFE), 0xFFFF_FFFF_FFFF_FFFF);
      }
    }
    if sigExtra != 0 {
      s.RaiseFlags({Inexact});
      if mode.Odd? {
        return ExtFloat80(PackToExtF80UI64(sign, exp), if sig % 2 == 0 then sig + 1 else sig);
      }
    }
    if doIncrement {
      if sig == 0xFFFF_FFFF_FFFF_FFFF {
        return ExtFloat80(PackToExtF80UI64(sign, exp + 1), 0x8000_0000_0000_0000);
      }
      return ExtFloat80(PackToExtF80UI64(sign, exp), Incremented(mode, sig, sigExtra));
    }
    return ExtFloat80(PackToExtF80UI64(sign, exp), sig);
  }

  /** The branch for exponents at or below zero, after the significand has been shifted. */
  method PackSubnormal(s: FloatState, sign: bool, sig: u64, sigExtra: u64, isTiny: bool, ghost num: nat, ghost den: int)
    returns (z: ExtFloat80)
    requires Represents(sig, sigExtra, num, den) && sig < TWO63
    modifies s`exceptionFlags
    ensures RoundMag(s.roundingMode, sign, num, den) <= TWO63
    ensures var m := RoundMag(s.roundingMode, sign, num, den);
            z == ExtFloat80(PackToExtF80UI64(sign, if m < TWO63 then 0 else 1), m)
    ensures s.exceptionFlags == old(s.exceptionFlags)
              + if num % den == 0 then {} else if isTiny then {Inexact, Underflow} else {Inexact}
  {
    var mode := s.roundingMode;
    IncrementRounds(mode, sign, sig, sigExtra, num % den, den);
    if sigExtra != 0 {
      if isTiny {
        s.RaiseFlags({Underflow});
      }
      s.RaiseFlags({Inexact});
      if mode.Odd? {
        return ExtFloat80(PackToExtF80UI64(sign, 0), if sig % 2 == 0 then sig + 1 else sig);
      }
    }
    if DoIncrement(mode, sign, sigExtra) {
      var sig' := Incremented(mode, sig, sigExtra);
      return ExtFloat80(PackToExtF80UI64(sign, if sig' >= TWO63 then 1 else 0), sig');
    }
    return ExtFloat80(PackToExtF80UI64(sign, 0), sig);
  }

  /** The words hi:lo stand for their own value divided by 2^64. */
  lemma WordsRepresent(w: UInt128)
    ensures Represents(w.v64, w.v0, w.Val(), TWO64)
  {
    DivModUnique(w.Val(), TWO64, w.v64, w.v0);
  }

  lemma NormalizingShift(w: UInt128, dist: nat)
    requires 1 <= dist <= 63 && TWO63 <= w.v64 * Pow2(dist) < TWO64
    ensures TWO127 <= w.Val() * Pow2(dist) < TWO128
    ensures ShortShiftLeft128(w, dist).Val() == w.Val() * Pow2(dist)
    ensures ShortShiftLeft128(w, dist).v64 >= TWO63
  {
    Pow2Values();
    Pow2Add(64 - dist, dist);
    NormalizedRange(w.v64, w.v0, Pow2(dist), Pow2(64 - dist));
  }

  lemma NormalizedRange(hi: u64, lo: u64, p: int, q: int)
    requires p > 0 && q * p == TWO64 && TWO63 <= hi * p < TWO64
    ensures TWO127 <= (hi * TWO64 + lo) * p < TWO128
  {
    MulCancelLt(hi, q, p);
    MultiplesApart(hi, q, p);
    MulLe(0, lo, p);
    MulLt(lo, TWO64, p);
    assert (hi * TWO64 + lo) * p == hi * p * TWO64 + lo * p;
  }

  /** Normalizes sig:sigExtra * 2^exp, then rounds and packs it. The ghost results say how far the
      words were shifted: num is their value after the shift and e the exponent that goes with it. */
  method NormRoundPackToExtF80(s: FloatState, sign: bool, exp: int, sig: u64, sigExtra: u64)
    returns (z: ExtFloat80, ghost e: int, ghost num: nat)
    requires sig == 0 && sigExtra == 0 ==> exp <= 128
    modifies s`exceptionFlags
    ensures exp - 128 <= e <= exp
    ensures num == UInt128(sig, sigExtra).Val() * Pow2(exp - e)
    ensures num / TWO64 < TWO64
    ensures e > 0 ==> num >= TWO127
    ensures z == Rounded(s.roundingMode, sign, e, num, TWO64)
    ensures s.exceptionFlags == old(s.exceptionFlags)
              + RoundedFlags(s.roundingMode, s.tininessBeforeRounding, sign, e, num, TWO64)
  {
    var exp', words := exp, UInt128(sig, sigExtra);
    if sig == 0 {
      exp', words := exp' - 64, UInt128(sigExtra, 0);
    }
    var shiftDist := CountLeadingZeros64(words.v64);
    exp' := exp' - shiftDist;
    num := words.Val() * Pow2(shiftDist);
    ShiftedWords(sig, sigExtra, words, shiftDist);
    words := Normalized(words, shiftDist);
    WordsRepresent(words);
    e := exp';
    z := RoundPackToExtF80(s, sign, exp', words.v64, words.v0, num, TWO64);
  }

  /** The words shifted up by the zeros above the top bit. Zero words stay zero: C leaves the shift of
      a word by 64 places undefined. */
  function Normalized(words: UInt128, shiftDist: nat): (z: UInt128)
    requires words.v64 == 0 ==> words.v0 == 0
    requires shiftDist == CountLeadingZeros64(words.v64)
    ensures z.Val() == words.Val() * Pow2(shiftDist)
    ensures words.v64 != 0 ==> z.v64 >= TWO63
    ensures words.v64 == 0 ==> z == words
  {
    if 0 < shiftDist < 64 then
      NormalizingShift(words, shiftDist);
      ShortShiftLeft128(words, shiftDist)
    else words
  }

  lemma ShiftedWords(sig: u64, sigExtra: u64, words: UInt128, shiftDist: nat)
    requires words == if sig == 0 then UInt128(sigExtra, 0) else UInt128(sig, sigExtra)
    ensures words.Val() * Pow2(shiftDist)
            == UInt128(sig, sigExtra).Val() * Pow2((if sig == 0 then 64 else 0) + shiftDist)
  {
    if sig == 0 {
      Pow2Values();
      Pow2Add(64, shiftDist);
      MulAssoc(sigExtra, TWO64, Pow2(shiftDist));
    }
  }

  /** Whether the packed result is a finite number rather than the answer to an overflow. */
  ghost predicate Fits(mode: RoundingMode, sign: bool, exp: int, num: nat, den: int)
    requires den > 0
  {
    exp <= 0x7FFE && (exp == 0x7FFE ==> RoundMag(mode, sign, num, den) < TWO64)
  }

  /** How many places below the last bit of the result a subnormal exponent reaches. */
  function Deficit(exp: int): nat {
    if exp > 0 then 0 else 1 - exp
  }

  lemma NormalValue(mode: RoundingMode, sign: bool, exp: nat, num: nat, den: int)
    requires exp > 0 && den > 0 && TWO63 <= num / den < TWO64 && Fits(mode, sign, exp, num, den)
    ensures var z := Rounded(mode, sign, exp, num, den);
            z.Finite() && z.Sign() == sign && z.Mag() == Scaled(RoundMag(mode, sign, num, den), exp)
  {
    var m := RoundMag(mode, sign, num, den);
    if m == TWO64 {
      Unpacked(sign, exp + 1, TWO63);
      assert Pow2(1) == 2;
      ScaledShift(TWO63, 1, exp + 1);
    } else {
      Unpacked(sign, exp, m);
    }
  }

  /** Below overflow, packing delivers the rounding of num / den * 2^exp to a multiple of the unit of
      its exponent: 2^exp for normal results, 2^1 for subnormal ones. */
  lemma RoundedValue(mode: RoundingMode, sign: bool, exp: int, num: nat, den: int)
    requires den > 0 && num / den < TWO64 && (exp > 0 ==> num / den >= TWO63)
    requires Fits(mode, sign, exp, num, den)
    ensures den * Pow2(Deficit(exp)) > 0
    ensures Rounded(mode, sign, exp, num, den).Finite()
    ensures Rounded(mode, sign, exp, num, den).Sign() == sign
    ensures Rounded(mode, sign, exp, num, den).Mag()
            == Scaled(RoundMag(mode, sign, num, den * Pow2(Deficit(exp))), if exp > 0 then exp else 1)
  {
    ScaledDenominator(num, den, Pow2(Deficit(exp)));
    if exp > 0 {
      NormalValue(mode, sign, exp, num, den);
    } else {
      var m := SubnormalRounding(mode, sign, exp, num, den);
      Unpacked(sign, if m < TWO63 then 0 else 1, m);
    }
  }

  /** A value that the format can hold is packed unchanged, and raises nothing. */
  lemma ExactValue(mode: RoundingMode, before: bool, sign: bool, exp: int, num: nat, k: nat)
    requires exp <= 0x7FFE && num / TWO64 < TWO64 && (exp > 0 ==> num >= TWO127)
    requires num == k * TWO64 * Pow2(Deficit(exp))
    ensures Rounded(mode, sign, exp, num, TWO64).Finite()
    ensures Rounded(mode, sign, exp, num, TWO64).Sign() == sign
    ensures Rounded(mode, sign, exp, num, TWO64).Mag() == Scaled(k, if exp > 0 then exp else 1)
    ensures RoundedFlags(mode, before, sign, exp, num, TWO64) == {}
  {
    var p := Pow2(Deficit(exp));
    MulLt(0, TWO64, p);
    MulAssoc(k, TWO64, p);
    DivModUnique(num, TWO64 * p, k, 0);
    RoundedValue(mode, sign, exp, num, TWO64);
  }

  // ----- overflow and exceptions, in terms of the value

  /** What overflow delivers: to nearest, and away from zero on that side, infinity; otherwise the largest finite
      number (IEEE 754-2019 section 7.4). */
  lemma OverflowResult(mode: RoundingMode, sign: bool, exp: int, num: nat, den: int)
    requires den > 0 && num / den < TWO64 && !Fits(mode, sign, exp, num, den)
    ensures Rounded(mode, sign, exp, num, den)
         == if mode.NearEven? || mode.NearMaxMag? || (mode.Min? && sign) || (mode.Max? && !sign)
            then ExtFloat80(if sign then 0xFFFF else 0x7FFF, 0x8000_0000_0000_0000)
            else ExtFloat80(if sign then 0xFFFE else 0x7FFE, 0xFFFF_FFFF_FFFF_FFFF)
  {
  }

  lemma NormalizedRounding(mode: RoundingMode, sign: bool, num: nat, den: int)
    requires den > 0 && TWO63 <= num / den < TWO64
    ensures TWO63 <= RoundMag(mode, sign, num, den) <= TWO64
  {
  }

  /** It happens exactly when the value, rounded to 64 bits as if the exponent had no bound, exceeds the largest
      finite number. */
  lemma FitsIff(mode: RoundingMode, sign: bool, exp: nat, num: nat, den: int)
    requires exp > 0 && den > 0 && TWO63 <= num / den < TWO64
    ensures Fits(mode, sign, exp, num, den)
        <==> Scaled(RoundMag(mode, sign, num, den), exp) <= Scaled(TWO64 - 1, 0x7FFE)
  {
    NormalizedRounding(mode, sign, num, den);
    LargestFinite(RoundMag(mode, sign, num, den), exp);
  }

  lemma LargestFinite(m: nat, exp: nat)
    requires exp > 0 && TWO63 <= m <= TWO64
    ensures exp < 0x7FFE || (exp == 0x7FFE && m < TWO64) <==> Scaled(m, exp) <= Scaled(TWO64 - 1, 0x7FFE)
  {
    var most := Pow2(0x7FFE + 64);
    if exp > 0x7FFE {
      Pow2Monotone(0x7FFF + 64, exp + 64);
      HigherExponent(m, Pow2(exp + 64), most);
    } else if exp < 0x7FFE {
      Pow2Monotone(exp + 65, 0x7FFE + 64);
      LowerExponent(m, Pow2(exp + 64), most);
    } else {
      SameExponent(m, most);
    }
  }

  lemma HigherExponent(m: nat, p: int, most: int)
    requires m >= TWO63 && p >= 2 * most > 0
    ensures m * p > (TWO64 - 1) * most
  {
    MulLe(TWO63, m, p);
    MulLe(2 * most, p, TWO63);
  }

  lemma LowerExponent(m: nat, p: int, most: int)
    requires m <= TWO64 && 0 < 2 * p <= most
    ensures m * p <= (TWO64 - 1) * most
  {
    MulLe(m, TWO64, p);
    MulLe(2 * p, most, TWO63);
    MulLe(TWO63, TWO64 - 1, most);
  }

  lemma SameExponent(m: nat, most: int)
    requires most > 0
    ensures m * most <= (TWO64 - 1) * most <==> m < TWO64
  {
    if m < TWO64 {
      MulLe(m, TWO64 - 1, most);
    } else {
      MulLt(TWO64 - 1, m, most);
    }
  }

  /** mag, in the units of the format, is exactly num / den * 2^exp. */
  ghost predicate IsExactly(mag: nat, num: nat, den: int, exp: int) {
    if exp >= -64 then mag * den == num * Pow2(exp + 64) else mag * den * Pow2(-64 - exp) == num
  }

  /** num / den * 2^exp is below the least normal number. */
  ghost predicate IsTiny(num: nat, den: int, exp: int) {
    if exp > 0 then num * Pow2(exp) < den * TWO64 else num < den * TWO64 * Pow2(-exp)
  }

  /** The two ways to detect it: on the value itself, or on its rounding to 64 bits as if exponents had no bound. */
  ghost predicate TinyAsDetected(mode: RoundingMode, before: bool, sign: bool, exp: int, num: nat, den: int)
    requires den > 0
  {
    if before then IsTiny(num, den, exp) else IsTiny(RoundMag(mode, sign, num, den), 1, exp)
  }

  lemma RoundsExactly(mode: RoundingMode, sign: bool, num: nat, den: int)
    requires den > 0
    ensures RoundMag(mode, sign, num, den) * den == num <==> num % den == 0
  {
    var f, r := num / den, num % den;
    DivMod(num, den);
    assert (f + 1) * den == f * den + den;
  }

  lemma ExactlyScaled(k: nat, exp: int, num: nat, den: int)
    requires den > 0
    ensures IsExactly(Scaled(k, if exp > 0 then exp else 1), num, den, exp) <==> k * (den * Pow2(Deficit(exp))) == num
  {
    if exp > 0 {
      CancelPower(k, den, num, 1, Pow2(exp + 64));
    } else if exp >= -64 {
      Pow2Add(Deficit(exp), exp + 64);
      CancelPower(k, den, num, Pow2(Deficit(exp)), Pow2(exp + 64));
    } else {
      Pow2Add(65, -64 - exp);
      Reordered(k, Pow2(65), den, Pow2(-64 - exp));
    }
  }

  lemma CancelPower(k: nat, den: int, num: nat, p: int, q: int)
    requires q > 0
    ensures k * (p * q) * den == num * q <==> k * (den * p) == num
  {
    assert k * (p * q) * den == k * (den * p) * q by {
      Reordered(k, p, q, den);
      Reordered(k, p, den, q);
      assert p * den == den * p;
      assert p * q * den == p * den * q;
    }
    if k * (den * p) < num {
      MulLt(k * (den * p), num, q);
    } else if k * (den * p) > num {
      MulLt(num, k * (den * p), q);
    }
  }

  lemma Reordered(k: int, p: int, d: int, q: int)
    ensures k * p * d * q == k * (d * (p * q))
    ensures k * (p * d) * q == k * (p * d * q) && k * p * d == k * (p * d)
  {
    MulAssoc(k, p, d);
    MulAssoc(k, p * d, q);
    MulAssoc(d, p, q);
  }

  /** Nothing but these three is raised: overflow for what does not fit, inexact when what is delivered is not the
      exact value, and underflow when it is inexact and tiny. */
  lemma FlagsMean(mode: RoundingMode, before: bool, sign: bool, exp: int, num: nat, den: int)
    requires den > 0 && num / den < TWO64 && (exp > 0 ==> num / den >= TWO63)
    ensures var flags, z := RoundedFlags(mode, before, sign, exp, num, den), Rounded(mode, sign, exp, num, den);
      && flags <= {Inexact, Underflow, Overflow}
      && (Overflow in flags <==> !Fits(mode, sign, exp, num, den))
      && (Inexact in flags <==> !(Fits(mode, sign, exp, num, den) && IsExactly(z.Mag(), num, den, exp)))
      && (Underflow in flags <==> Inexact in flags && TinyAsDetected(mode, before, sign, exp, num, den))
  {
    var d := den * Pow2(Deficit(exp));
    ScaledDenominator(num, den, Pow2(Deficit(exp)));
    if Fits(mode, sign, exp, num, den) {
      RoundedValue(mode, sign, exp, num, den);
      ExactlyScaled(RoundMag(mode, sign, num, d), exp, num, den);
      RoundsExactly(mode, sign, num, d);
    }
    TinyIff(mode, sign, exp, num, den);
  }

  lemma TinyIff(mode: RoundingMode, sign: bool, exp: int, num: nat, den: int)
    requires den > 0 && num / den < TWO64 && (exp > 0 ==> num / den >= TWO63)
    ensures IsTiny(num, den, exp) <==> exp <= 0
    ensures IsTiny(RoundMag(mode, sign, num, den), 1, exp)
        <==> exp < 0 || (exp == 0 && RoundMag(mode, sign, num, den) < TWO64)
  {
    var m := RoundMag(mode, sign, num, den);
    DivMod(num, den);
    if exp > 0 {
      NormalizedRounding(mode, sign, num, den);
      Pow2Monotone(1, exp);
      MulLe(TWO63, num / den, den);
      MulLe(2, Pow2(exp), num);
      MulLe(2, Pow2(exp), m);
    } else {
      MulLe(num / den, TWO64 - 1, den);
      MulLe(1, Pow2(-exp), den * TWO64);
      if exp < 0 {
        Pow2Monotone(1, -exp);
        MulLe(2, Pow2(-exp), TWO64);
      }
    }
  }
}

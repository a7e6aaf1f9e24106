/** The 80-bit extended format, and the mutable state that SoftFloat operations share. */
module ExtF80 {
  import opened Words
  import opened PowersOfTwo
  import opened Primitives
  import opened Rounding

  datatype ExtFloat80 = ExtFloat80(signExp: u16, signif: u64) {
    predicate Sign() {
      signExp >= 0x8000
    }

    function Exp(): nat {
      signExp % 0x8000
    }

    predicate Finite() {
      Exp() != 0x7FFF
    }

    predicate NaN() {
      Exp() == 0x7FFF && signif % TWO63 != 0
    }

    /** The exponent that weighs the significand: subnormals share the exponent of 1. */
    function Weight(): nat {
      if Exp() == 0 then 1 else Exp()
    }

    /** The magnitude of a finite value, in units of 2^-16510. */
    ghost function Mag(): nat {
      Scaled(signif, Weight())
    }

    ghost function Value(): int {
      Negate(Sign(), Mag())
    }
  }

  /** sig * 2^exp in units of 2^-64, an integer for every exponent that occurs. */
  ghost function Scaled(sig: nat, exp: int): nat
    requires exp >= -64
  {
    MulLe(0, sig, Pow2(exp + 64));
    sig * Pow2(exp + 64)
  }

  datatype Flag = Inexact | Underflow | Overflow | Infinite | Invalid

  class FloatState {
    var roundingMode: RoundingMode
    var tininessBeforeRounding: bool
    var exceptionFlags: set<Flag>

    constructor ()
      ensures roundingMode == NearEven && !tininessBeforeRounding && exceptionFlags == {}
    {
      roundingMode, tininessBeforeRounding, exceptionFlags := NearEven, false, {};
    }

    method RaiseFlags(flags: set<Flag>)
      modifies this`exceptionFlags
      ensures exceptionFlags == old(exceptionFlags) + flags
    {
      exceptionFlags := exceptionFlags + flags;
    }
  }

  const DefaultNaN := ExtFloat80(0x7FFF, 0xC000_0000_0000_0000)

  /** The answer of an operation: a number, or a NaN whose payload propagation is not modelled. */
  datatype Outcome = PropagatedNaN | Number(z: ExtFloat80)

  function PackToExtF80UI64(sign: bool, exp: nat): u16
    requires exp < 0x8000
  {
    (if sign then 0x8000 else 0) + exp
  }

  lemma Unpacked(sign: bool, exp: nat, sig: u64)
    requires exp < 0x8000
    ensures ExtFloat80(PackToExtF80UI64(sign, exp), sig).Sign() == sign
    ensures ExtFloat80(PackToExtF80UI64(sign, exp), sig).Exp() == exp
  {
  }

  lemma PositiveMag(b: ExtFloat80)
    requires b.signif > 0
    ensures b.Mag() > 0
  {
    MulLe(1, b.signif, Pow2(b.Weight() + 64));
  }

  /** The number of zero bits above the top bit of sig; 64 when there is none. */
  function CountLeadingZeros64(sig: u64): (n: nat)
    ensures n <= 64
    ensures sig == 0 <==> n == 64
    ensures sig > 0 ==> TWO63 <= sig * Pow2(n) < TWO64
    decreases TWO64 - sig
  {
    if sig == 0 then 64
    else if sig >= TWO63 then 0
    else
      var n := CountLeadingZeros64(2 * sig);
      assert 2 * sig * Pow2(n) == sig * Pow2(n + 1);
      NotBelowOne(sig, n + 1);
      n + 1
  }

  lemma NotBelowOne(sig: nat, n: nat)
    requires sig > 0 && sig * Pow2(n) < TWO64
    ensures n < 64
  {
    if n >= 64 {
      Pow2Monotone(64, n);
      Pow2Values();
      MulLe(1, sig, Pow2(n));
    }
  }

  datatype ExpSig = ExpSig(exp: int, sig: u64)

  function NormSubnormalExtF80Sig(sig: u64): (z: ExpSig)
    requires sig > 0
    ensures -63 <= z.exp <= 0 && z.sig >= TWO63
    ensures z.sig == sig * Pow2(-z.exp)
  {
    var shiftDist := CountLeadingZeros64(sig);
    ExpSig(0 - shiftDist, sig * Pow2(shiftDist))
  }

  lemma ScaledShift(sig: nat, n: nat, exp: int)
    requires exp - n >= -64
    ensures sig * Pow2(n) >= 0
    ensures Scaled(sig * Pow2(n), exp - n) == Scaled(sig, exp)
  {
    MulLe(0, sig, Pow2(n));
    Pow2Add(n, exp - n + 64);
    MulAssoc(sig, Pow2(n), Pow2(exp - n + 64));
  }

  /** The steps by which every operation normalizes a non-zero operand: exponent zero counts as one,
      and a significand without its top bit is shifted up. */
  function Normalize(exp: nat, sig: u64): (z: ExpSig)
    requires sig > 0
    ensures z.sig >= TWO63 && -62 <= z.exp <= (if exp == 0 then 1 else exp)
    ensures z.sig == sig * Pow2((if exp == 0 then 1 else exp) - z.exp)
    ensures Scaled(z.sig, z.exp) == Scaled(sig, if exp == 0 then 1 else exp)
  {
    var weight := if exp == 0 then 1 else exp;
    if sig < TWO63 then
      var normExpSig := NormSubnormalExtF80Sig(sig);
      ScaledShift(sig, -normExpSig.exp, weight);
      ExpSig(weight + normExpSig.exp, normExpSig.sig)
    else ExpSig(weight, sig)
  }
}

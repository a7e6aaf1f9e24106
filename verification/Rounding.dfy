/** Rounding of a non-negative rational to an integer, in the rounding modes of SoftFloat. */
module Rounding {
  import opened PowersOfTwo

  datatype RoundingMode = NearEven | MinMag | Min | Max | NearMaxMag | Odd

  /** Whether a magnitude with floor f and discarded part r / den is rounded up to f + 1. */
  predicate RoundsUp(mode: RoundingMode, sign: bool, f: nat, r: nat, den: int) {
    r != 0 &&
    match mode
    case NearEven => 2 * r > den || (2 * r == den && f % 2 == 1)
    case NearMaxMag => 2 * r >= den
    case MinMag => false
    case Min => sign
    case Max => !sign
    case Odd => f % 2 == 0
  }

  /** The integer magnitude that num / den rounds to; sign says whether the rational is negated. */
  function RoundMag(mode: RoundingMode, sign: bool, num: nat, den: int): (z: nat)
    requires den > 0
  {
    num / den + if RoundsUp(mode, sign, num / den, num % den, den) then 1 else 0
  }

  function Negate(sign: bool, x: int): int {
    if sign then -x else x
  }

  function Abs(x: int): nat {
    if x < 0 then -x else x
  }

  /** The distance between x / den and the integer y, scaled by den. */
  function Distance(x: int, den: int, y: int): nat {
    Abs(x - y * den)
  }

  /** No integer is closer to x / den than y. */
  ghost predicate IsNearest(x: int, den: int, y: int) {
    forall k: int :: Distance(x, den, y) <= Distance(x, den, k)
  }

  /** What each mode asks of y as a rounding of x / den: IEEE 754-2019 sections 4.3.1 and 4.3.2,
      and rounding to odd. */
  ghost predicate IsRounding(mode: RoundingMode, x: int, den: int, y: int) {
    match mode
    case NearEven =>
      IsNearest(x, den, y) && (forall k: int :: IsNearest(x, den, k) && k != y ==> y % 2 == 0)
    case NearMaxMag =>
      IsNearest(x, den, y) && (forall k: int :: IsNearest(x, den, k) ==> Abs(k) <= Abs(y))
    case MinMag => if x >= 0 then y * den <= x < y * den + den else y * den - den < x <= y * den
    case Min => y * den <= x < y * den + den
    case Max => y * den - den < x <= y * den
    case Odd => Distance(x, den, y) < den && (x != y * den ==> y % 2 == 1)
  }

  lemma NoneCloser(x: int, den: int, y: int, k: int)
    requires den > 0 && 2 * Distance(x, den, y) <= den
    ensures Distance(x, den, y) <= Distance(x, den, k)
  {
    MultiplesApart(y, k, den);
  }

  lemma OneCloser(x: int, den: int, y: int) returns (k: int)
    requires den > 0 && 2 * Distance(x, den, y) > den
    ensures Distance(x, den, k) < Distance(x, den, y)
  {
    k := if x < y * den then y - 1 else y + 1;
    assert k * den == y * den + (if x < y * den then -den else den);
  }

  lemma NearestIff(x: int, den: int, y: int)
    requires den > 0
    ensures IsNearest(x, den, y) <==> 2 * Distance(x, den, y) <= den
  {
    if 2 * Distance(x, den, y) <= den {
      forall k: int
        ensures Distance(x, den, y) <= Distance(x, den, k)
      {
        NoneCloser(x, den, y, k);
      }
    } else {
      var k := OneCloser(x, den, y);
    }
  }

  /** Two different nearest integers are the two sides of a tie. */
  lemma NearestTie(x: int, den: int, y: int, k: int)
    requires den > 0 && 2 * Distance(x, den, y) <= den && 2 * Distance(x, den, k) <= den
    requires y != k
    ensures 2 * Distance(x, den, y) == den && Abs(k - y) == 1
  {
    MultiplesApart(y, k, den);
  }

  lemma SignedProduct(sign: bool, z: int, den: int)
    ensures Negate(sign, z) * den == Negate(sign, z * den)
    ensures (z + 1) * den == z * den + den
  {
  }

  /** RoundMag rounds as each mode asks, for every rational and both signs. */
  lemma RoundMagIsRounding(mode: RoundingMode, sign: bool, num: nat, den: int)
    requires den > 0
    ensures IsRounding(mode, Negate(sign, num), den, Negate(sign, RoundMag(mode, sign, num, den)))
  {
    var f, r := num / den, num % den;
    var z := RoundMag(mode, sign, num, den);
    assert z == if RoundsUp(mode, sign, f, r, den) then f + 1 else f;
    assert f * den + r == num by { DivMod(num, den); }
    RoundsUpIsRounding(mode, sign, f, r, den);
  }

  lemma RoundsUpIsRounding(mode: RoundingMode, sign: bool, f: nat, r: nat, den: int)
    requires 0 <= r < den
    ensures IsRounding(mode, Negate(sign, f * den + r), den,
                       Negate(sign, if RoundsUp(mode, sign, f, r, den) then f + 1 else f))
  {
    var z := if RoundsUp(mode, sign, f, r, den) then f + 1 else f;
    var x, y := Negate(sign, f * den + r), Negate(sign, z);
    SignedProduct(sign, z, den);
    SignedProduct(sign, f, den);
    assert Distance(x, den, y) == if z == f then r else den - r;
    if mode.NearEven? || mode.NearMaxMag? {
      NearestIff(x, den, y);
      forall k: int | IsNearest(x, den, k) && k != y
        ensures mode.NearEven? ==> y % 2 == 0
        ensures mode.NearMaxMag? ==> Abs(k) <= Abs(y)
      {
        NearestIff(x, den, k);
        NearestTie(x, den, y, k);
        if mode.NearMaxMag? {
          TieBelow(sign, f, r, den, k);
        }
      }
    } else if mode.MinMag? {
      MulLe(0, f, den);
    }
  }

  lemma TieBelow(sign: bool, f: nat, r: nat, den: int, k: int)
    requires 0 <= r < den && 2 * r == den
    requires 2 * Distance(Negate(sign, f * den + r), den, k) <= den
    ensures Abs(k) <= f + 1
  {
    var k' := Negate(sign, k);
    SignedProduct(sign, k', den);
    MultiplesApart(f, k', den);
    MultiplesApart(0, k', den);
    MulLe(0, f, den);
  }

  /** At most one integer is a rounding of a given rational. */
  lemma RoundingIsUnique(mode: RoundingMode, x: int, den: int, y: int, k: int)
    requires den > 0 && IsRounding(mode, x, den, y) && IsRounding(mode, x, den, k)
    ensures y == k
  {
    MultiplesApart(y, k, den);
    if (mode.NearEven? || mode.NearMaxMag?) && y != k {
      NearestIff(x, den, y);
      NearestIff(x, den, k);
      NearestTie(x, den, y, k);
      NearMaxMagSameSide(x, den, y, k);
    }
  }

  lemma NearMaxMagSameSide(x: int, den: int, y: int, k: int)
    requires den > 0 && 2 * Distance(x, den, y) <= den && 2 * Distance(x, den, k) <= den && y != k
    ensures Abs(y) != Abs(k)
  {
    NearestTie(x, den, y, k);
  }

  /** An integer rounds to itself. */
  lemma RoundMagExact(mode: RoundingMode, sign: bool, k: nat, den: int)
    requires den > 0
    ensures k * den >= 0 && RoundMag(mode, sign, k * den, den) == k
  {
    MulLe(0, k, den);
    DivModUnique(k * den, den, k, 0);
  }

  lemma RoundsUpScale(mode: RoundingMode, sign: bool, f: nat, r: nat, den: int, p: int)
    requires p > 0
    ensures p * r >= 0
    ensures RoundsUp(mode, sign, f, p * r, p * den) == RoundsUp(mode, sign, f, r, den)
  {
    if r != 0 {
      MulLe(1, r, p);
    }
    if 2 * r < den {
      MulLt(2 * r, den, p);
    } else if 2 * r > den {
      MulLt(den, 2 * r, p);
    }
  }

  /** Scaling numerator and denominator alike changes nothing. */
  lemma RoundMagScale(mode: RoundingMode, sign: bool, num: nat, den: int, p: int)
    requires den > 0 && p > 0
    ensures p * den > 0 && num * p >= 0
    ensures RoundMag(mode, sign, num * p, p * den) == RoundMag(mode, sign, num, den)
  {
    MulModMul(num, p, den);
    MulLe(0, num, p);
    RoundsUpScale(mode, sign, num / den, num % den, den, p);
  }

  /** Rounding commutes with adding an even integer. */
  lemma RoundMagOffset(mode: RoundingMode, sign: bool, num: nat, den: int, j: nat)
    requires den > 0 && j % 2 == 0
    ensures num + j * den >= 0
    ensures RoundMag(mode, sign, num + j * den, den) == RoundMag(mode, sign, num, den) + j
    ensures (num + j * den) % den == num % den
  {
    MulLe(0, j, den);
    DivMod(num, den);
    assert (num / den + j) * den == num / den * den + j * den;
    DivModUnique(num + j * den, den, num / den + j, num % den);
    EvenOffset(num / den, j);
  }

  lemma EvenOffset(f: nat, j: nat)
    requires j % 2 == 0
    ensures (f + j) % 2 == f % 2
  {
  }

  /** Equal rationals round alike. */
  lemma RoundMagSameRatio(mode: RoundingMode, sign: bool, n1: nat, d1: int, n2: nat, d2: int)
    requires d1 > 0 && d2 > 0 && n1 * d2 == n2 * d1
    ensures RoundMag(mode, sign, n1, d1) == RoundMag(mode, sign, n2, d2)
  {
    RoundMagScale(mode, sign, n1, d1, d2);
    RoundMagScale(mode, sign, n2, d2, d1);
    assert d1 * d2 == d2 * d1;
  }

  lemma RoundMagOrder(mode: RoundingMode, sign: bool, n1: nat, n2: nat, den: int)
    requires den > 0 && n1 <= n2
    ensures RoundMag(mode, sign, n1, den) <= RoundMag(mode, sign, n2, den)
  {
    DivOrder(n1, n2, den);
  }

  lemma DivOrder(n1: nat, n2: nat, den: int)
    requires den > 0 && n1 <= n2
    ensures n1 / den <= n2 / den
    ensures n1 / den == n2 / den ==> n1 % den <= n2 % den
  {
    MultiplesApart(n1 / den, n2 / den, den);
  }

  /** Rounding never reorders two rationals, whatever their signs. */
  lemma RoundMagMonotone(mode: RoundingMode, s1: bool, n1: nat, d1: int, s2: bool, n2: nat, d2: int)
    requires d1 > 0 && d2 > 0
    requires Negate(s1, n1 * d2) <= Negate(s2, n2 * d1)
    ensures Negate(s1, RoundMag(mode, s1, n1, d1)) <= Negate(s2, RoundMag(mode, s2, n2, d2))
  {
    RoundMagScale(mode, s1, n1, d1, d2);
    RoundMagScale(mode, s2, n2, d2, d1);
    var m1, m2, den := n1 * d2, n2 * d1, d1 * d2;
    assert d2 * d1 == den;
    if s1 && s2 {
      RoundMagOrder(mode, true, m2, m1, den);
    } else if !s1 && !s2 {
      RoundMagOrder(mode, false, m1, m2, den);
    } else if s2 {
      assert m1 == 0 && m2 == 0;
      RoundMagExact(mode, s1, 0, den);
      RoundMagExact(mode, s2, 0, den);
    }
  }
}

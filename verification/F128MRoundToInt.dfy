/** Rounding a 128-bit value held in four 32-bit words to an integral value. */
module F128MRoundToInt {
  import opened Words
  import opened PowersOfTwo
  import opened Primitives
  import opened Rounding
  import opened ExtF80
  import opened RoundPack

  /** The weight of word i, least significant word first. */
  function Base(i: nat): (b: int)
    ensures b > 0
  {
    if i == 0 then 1 else TWO32 * Base(i - 1)
  }

  /** The words from i up, read as one integer. */
  function Above(w: seq<u32>, i: nat): (v: nat)
    requires |w| == 4 && i <= 4
    decreases 4 - i
  {
    if i == 4 then 0 else w[i] + TWO32 * Above(w, i + 1)
  }

  /** The words below i, read as one integer. */
  function Below(w: seq<u32>, i: nat): (v: nat)
    requires |w| == 4 && i <= 4
    ensures v < Base(i)
  {
    if i == 0 then 0
    else
      MulLe(0, w[i - 1], Base(i - 1));
      MulLe(w[i - 1], TWO32 - 1, Base(i - 1));
      Below(w, i - 1) + w[i - 1] * Base(i - 1)
  }

  function Val128(w: seq<u32>): nat
    requires |w| == 4
  {
    Above(w, 0)
  }

  lemma {:induction false} SplitBelow(w: seq<u32>, i: nat)
    requires |w| == 4 && i <= 4
    ensures Val128(w) == Above(w, i) * Base(i) + Below(w, i)
  {
    if i > 0 {
      SplitBelow(w, i - 1);
      NextWord(w, i - 1);
      MoveWord(Above(w, i), w[i - 1], Base(i - 1));
    }
  }

  lemma MoveWord(above: int, word: int, base: int)
    ensures (above * TWO32 + word) * base == above * (TWO32 * base) + word * base
  {
    MulAssoc(above, TWO32, base);
  }

  lemma SplitAt(w: seq<u32>, i: nat)
    requires |w| == 4 && i <= 3
    ensures Val128(w) == (Above(w, i + 1) * TWO32 + w[i]) * Base(i) + Below(w, i)
  {
    SplitBelow(w, i);
    NextWord(w, i);
  }

  lemma NextWord(w: seq<u32>, i: nat)
    requires |w| == 4 && i <= 3
    ensures Above(w, i) == Above(w, i + 1) * TWO32 + w[i]
    ensures Below(w, i + 1) == Below(w, i) + w[i] * Base(i)
    ensures Below(w, i + 1) == 0 <==> Below(w, i) == 0 && w[i] == 0
  {
  }

  // ----- rounding at a place inside one word

  /** The value v * base + low, rounded at the place c * base: only v % c and low count. */
  lemma PlaceInWord(mode: RoundingMode, sign: bool, v: nat, low: nat, base: int, c: int)
    requires base > 0 && low < base && c > 0
    ensures base * c > 0 && v % c * base + low >= 0 && v * base + low >= 0
    ensures RoundMag(mode, sign, v * base + low, base * c)
            == v / c + if RoundsUp(mode, sign, v / c, v % c * base + low, base * c) then 1 else 0
    ensures (v * base + low) % (base * c) == v % c * base + low
  {
    MulLe(0, v, base);
    MulLe(0, v % c, base);
    NestedQuotient(v * base + low, v, low, base, c);
  }

  lemma ComparePlace(a2: nat, low: nat, base: int, half: int)
    requires base > 0 && low < base && half > 0
    ensures a2 * base >= 0
    ensures a2 * base + low == 0 <==> a2 == 0 && low == 0
    ensures 2 * (a2 * base + low) >= base * (2 * half) <==> a2 >= half
    ensures 2 * (a2 * base + low) == base * (2 * half) <==> a2 == half && low == 0
  {
    MultiplesApart(a2, half, base);
    MultiplesApart(0, a2, base);
    assert base * (2 * half) == 2 * (half * base);
  }

  lemma AddHalf(v: nat, half: int)
    requires half > 0
    ensures (v + half) / (2 * half) == v / (2 * half) + if v % (2 * half) >= half then 1 else 0
    ensures (v + half) % (2 * half) == if v % (2 * half) >= half then v % (2 * half) - half else v % (2 * half) + half
  {
    var c := 2 * half;
    var f, r := v / c, v % c;
    DivMod(v, c);
    if r >= half {
      assert (f + 1) * c == f * c + c;
      DivModUnique(v + half, c, f + 1, r - half);
    } else {
      DivModUnique(v + half, c, f, r + half);
    }
  }

  /** To nearest: add half a unit of the place, cut below the place, and on a tie clear its bit. */
  lemma NearestPlace(sign: bool, v: nat, low: nat, base: int, half: int)
    requires base > 0 && low < base && half > 0
    ensures base * (2 * half) > 0 && v * base + low >= 0
    ensures RoundMag(NearMaxMag, sign, v * base + low, base * (2 * half)) == (v + half) / (2 * half)
    ensures RoundMag(NearEven, sign, v * base + low, base * (2 * half))
            == if low == 0 && (v + half) % (2 * half) == 0 then (v + half) / (2 * half) / 2 * 2
               else (v + half) / (2 * half)
    ensures (v * base + low) % (base * (2 * half)) == 0 <==> v % (2 * half) == 0 && low == 0
  {
    PlaceInWord(NearMaxMag, sign, v, low, base, 2 * half);
    PlaceInWord(NearEven, sign, v, low, base, 2 * half);
    ComparePlace(v % (2 * half), low, base, half);
    AddHalf(v, half);
  }

  /** The directed and truncating modes: the place goes up by one unit exactly when bits are lost. */
  lemma DirectedPlace(mode: RoundingMode, sign: bool, v: nat, low: nat, base: int, c: int)
    requires base > 0 && low < base && c > 0 && !mode.NearEven? && !mode.NearMaxMag?
    ensures base * c > 0 && v * base + low >= 0
    ensures RoundMag(mode, sign, v * base + low, base * c)
            == v / c + if (v % c == 0 && low == 0) || mode.MinMag? then 0
                       else if mode.Odd? then (v / c + 1) % 2
                       else if mode == (if sign then Min else Max) then 1 else 0
    ensures (v * base + low) % (base * c) == 0 <==> v % c == 0 && low == 0
  {
    PlaceInWord(mode, sign, v, low, base, c);
    ComparePlace(v % c, low, base, 1);
  }

  /** The word after the addition, with its carry, in place of the sum. */
  lemma WordSum(h: nat, a: u32, add: u32, z: u32, carry: nat, c: int, k: int)
    requires c > 0 && k * c == TWO32
    requires z == (a + add) % TWO32 && carry == if z < a then 1 else 0
    ensures h * TWO32 + a + add == (h + carry) * TWO32 + z
    ensures (h * TWO32 + a + add) / c == (h + carry) * k + z / c
    ensures (h * TWO32 + a + add) % c == z % c
    ensures (h * TWO32 + a) % c == a % c && (h * TWO32 + a) / c == h * k + a / c
  {
    MultipleOffset(h + carry, z, c, k);
    MultipleOffset(h, a, c, k);
  }

  lemma MultipleOffset(h: nat, z: u32, c: int, k: int)
    requires c > 0 && k * c == TWO32
    ensures (h * TWO32 + z) / c == h * k + z / c
    ensures (h * TWO32 + z) % c == z % c
  {
    DivMod(z, c);
    MulAssoc(h, k, c);
    assert (h * k + z / c) * c == h * k * c + z / c * c;
    DivModUnique(h * TWO32 + z, c, h * k + z / c, z % c);
  }

  /** x without its bits below c, a power of two up to 2^32. */
  function CutBelow(x: u32, c: nat): (z: u32)
    requires c > 0
    ensures z == x / c * c
  {
    DivMod(x, c);
    MulLe(0, x / c, c);
    x - x % c
  }

  /** x without bit c, and without the bits below it. */
  function ClearPlace(x: u32, c: nat): (z: u32)
    requires c > 0
    ensures z == x / c / 2 * 2 * c
  {
    DivMod(x, c);
    MulLe(0, x / c / 2 * 2, c);
    MulLe(x / c / 2 * 2, x / c, c);
    if x / c % 2 == 1 then
      assert (x / c - 1) * c == x / c * c - c;
      x - x % c - c
    else x - x % c
  }

  /** The rounded magnitude of (h:word) * base + low at the place c of the word. */
  ghost function RoundedAt(mode: RoundingMode, sign: bool, h: nat, word: u32, low: nat, base: int, c: int): nat
    requires base > 0 && c > 0 && low < base
  {
    PlaceInWord(mode, sign, h * TWO32 + word, low, base, c);
    RoundMag(mode, sign, (h * TWO32 + word) * base + low, base * c)
  }

  ghost predicate LosesBits(h: nat, word: u32, low: nat, base: int, c: int)
    requires base > 0 && c > 0 && low < base
  {
    PlaceInWord(MinMag, false, h * TWO32 + word, low, base, c);
    ((h * TWO32 + word) * base + low) % (base * c) != 0
  }

  /** The multiple of c in h:z, with its last bit cleared. */
  lemma EvenMultiple(h: nat, z: u32, c: int, k: int)
    requires c > 0 && k * c == TWO32 && k % 2 == 0
    ensures (h * k + z / c) / 2 * 2 * c == h * TWO32 + z / c / 2 * 2 * c
  {
    EvenProduct(h, k / 2, z / c);
    MulAssoc(h, k, c);
    assert (h * k + z / c / 2 * 2) * c == h * k * c + z / c / 2 * 2 * c;
  }

  lemma EvenProduct(h: nat, half: int, d: nat)
    ensures (h * (2 * half) + d) / 2 * 2 == h * (2 * half) + d / 2 * 2
  {
    assert h * (2 * half) == 2 * (h * half);
  }

  lemma WholeMultiple(h: nat, z: u32, c: int, k: int)
    requires c > 0 && k * c == TWO32
    ensures (h * k + z / c) * c == h * TWO32 + z / c * c
  {
    MulAssoc(h, k, c);
    assert (h * k + z / c) * c == h * k * c + z / c * c;
  }

  /** To nearest, in terms of the word after the addition and its carry. */
  lemma NearestInWord(mode: RoundingMode, sign: bool, h: nat, a: u32, half: u32, z: u32, carry: nat, k: int, low: nat, base: int)
    requires (mode.NearEven? || mode.NearMaxMag?) && half > 0 && k * (2 * half) == TWO32 && base > 0 && low < base
    requires z == (a + half) % TWO32 && carry == if z < a then 1 else 0
    ensures RoundedAt(mode, sign, h, a, low, base, 2 * half)
            == if mode.NearEven? && low == 0 && z % (2 * half) == 0 then ((h + carry) * k + z / (2 * half)) / 2 * 2
               else (h + carry) * k + z / (2 * half)
    ensures LosesBits(h, a, low, base, 2 * half) <==> low != 0 || a % (2 * half) != 0
  {
    NearestPlace(sign, h * TWO32 + a, low, base, half);
    WordSum(h, a, half, z, carry, 2 * half, k);
  }

  /** To nearest, inside the word that holds the half-unit bit. When the kept bit that breaks a tie
      lies in the next word, that is left to the caller. */
  method RoundWordNear(s: FloatState, mode: RoundingMode, exact: bool, wordA: u32, bit: u32, extra: bool,
                       ghost sign: bool, ghost h: nat, ghost low: nat, ghost base: int, ghost k: int)
    returns (wordZ: u32, carry: nat, tieAbove: bool)
    requires mode.NearEven? || mode.NearMaxMag?
    requires bit > 0 && k * (2 * bit) == TWO32 && (k == 1 || k % 2 == 0)
    requires base > 0 && low < base && (extra <==> low != 0)
    modifies s`exceptionFlags
    ensures carry <= 1
    ensures !tieAbove ==> RoundedAt(mode, sign, h, wordA, low, base, 2 * bit) * (2 * bit) == (h + carry) * TWO32 + wordZ
    ensures tieAbove ==> 2 * bit == TWO32 && wordZ == 0
                         && RoundedAt(mode, sign, h, wordA, low, base, 2 * bit) == (h + carry) / 2 * 2
    ensures s.exceptionFlags == old(s.exceptionFlags)
              + if exact && LosesBits(h, wordA, low, base, 2 * bit) then {Inexact} else {}
  {
    var c: nat := 2 * bit;
    wordZ := (wordA + bit) % 0x1_0000_0000;
    carry := if wordZ < wordA then 1 else 0;
    NearestInWord(mode, sign, h, wordA, bit, wordZ, carry, k, low, base);
    if exact && (extra || wordA % c != 0) {
      s.RaiseFlags({Inexact});
    }
    tieAbove := false;
    if mode.NearEven? && !extra && wordZ % c == 0 {
      if c % 0x1_0000_0000 == 0 {
        WordPlaceOnly(c, k);
        tieAbove := true;
        return;
      }
      EvenMultiple(h + carry, wordZ, c, k);
      wordZ := ClearPlace(wordZ, c);
    } else {
      WholeMultiple(h + carry, wordZ, c, k);
      wordZ := CutBelow(wordZ, c);
    }
  }

  lemma WordPlaceOnly(c: nat, k: int)
    requires 0 < c <= TWO32 && k * c == TWO32 && c % TWO32 == 0
    ensures c == TWO32 && k == 1
  {
  }

  /** x with bit c set. */
  function SetPlace(x: u32, c: nat, ghost k: int): (z: u32)
    requires c > 0 && k * c == TWO32 && k % 2 == 0
    ensures z / c == x / c + (x / c + 1) % 2
  {
    RoomForPlace(x, c, k);
    NextMultiple(x, c);
    if x / c % 2 == 0 then x + c else x
  }

  lemma RoomForPlace(x: u32, c: nat, k: int)
    requires c > 0 && k * c == TWO32 && k % 2 == 0
    ensures x / c % 2 == 0 ==> x + c < TWO32
  {
    var q := x / c;
    DivMod(x, c);
    MulCancelLt(q, k, c);
    MultiplesApart(q, k, c);
    if q % 2 == 0 {
      assert q + 1 < k;
    }
  }

  lemma OddQuotient(h: nat, k: int, d: nat)
    requires k % 2 == 0
    ensures (h * k + d + 1) % 2 == (d + 1) % 2
  {
    EvenProduct(h, k / 2, d + 1);
    EvenRemainder(h * k, d + 1);
  }

  lemma EvenRemainder(x: int, d: nat)
    requires (x + d) / 2 * 2 == x + d / 2 * 2
    ensures (x + d) % 2 == d % 2
  {
  }

  lemma NextMultiple(v: nat, c: int)
    requires c > 0
    ensures (v + c) / c == v / c + 1
  {
    DivMod(v, c);
    assert (v / c + 1) * c == v / c * c + c;
    DivModUnique(v + c, c, v / c + 1, v % c);
  }

  /** Where the multiple of bit goes when bits are lost: up, to odd, or nowhere. */
  method StepDirected(mode: RoundingMode, sign: bool, wordA: u32, bit: u32, ghost h: nat, ghost k: int)
    returns (wordZ: u32, carry: nat)
    requires !mode.NearEven? && !mode.NearMaxMag?
    requires bit > 0 && k * bit == TWO32 && k % 2 == 0
    ensures carry <= 1
    ensures (h + carry) * k + wordZ / bit
            == (h * TWO32 + wordA) / bit
               + if mode == (if sign then Min else Max) then 1
                 else if mode.Odd? then ((h * TWO32 + wordA) / bit + 1) % 2
                 else 0
  {
    wordZ, carry := wordA, 0;
    WordSum(h, wordA, 0, wordA, 0, bit, k);
    if mode == if sign then Min else Max {
      wordZ := (wordA + bit) % 0x1_0000_0000;
      carry := if wordZ < wordA then 1 else 0;
      WordSum(h, wordA, bit, wordZ, carry, bit, k);
      NextMultiple(h * TWO32 + wordA, bit);
    } else if mode.Odd? {
      OddQuotient(h, k, wordA / bit);
      wordZ := SetPlace(wordA, bit, k);
    }
  }

  /** Truncation, directed rounding and rounding to odd, inside the word that holds the place. */
  method RoundWordDirected(s: FloatState, mode: RoundingMode, exact: bool, wordA: u32, bit: u32, extra: bool,
                           sign: bool, ghost h: nat, ghost low: nat, ghost base: int, ghost k: int)
    returns (wordZ: u32, carry: nat)
    requires !mode.NearEven? && !mode.NearMaxMag?
    requires bit > 0 && k * bit == TWO32 && k % 2 == 0
    requires base > 0 && low < base && (extra <==> low != 0)
    modifies s`exceptionFlags
    ensures carry <= 1
    ensures RoundedAt(mode, sign, h, wordA, low, base, bit) * bit == (h + carry) * TWO32 + wordZ
    ensures s.exceptionFlags == old(s.exceptionFlags)
              + if exact && LosesBits(h, wordA, low, base, bit) then {Inexact} else {}
  {
    wordZ, carry := wordA, 0;
    DirectedPlace(mode, sign, h * TWO32 + wordA, low, base, bit);
    WordSum(h, wordA, 0, wordA, 0, bit, k);
    if extra || wordA % bit != 0 {
      if exact {
        s.RaiseFlags({Inexact});
      }
      wordZ, carry := StepDirected(mode, sign, wordA, bit, h, k);
    }
    assert RoundedAt(mode, sign, h, wordA, low, base, bit) == (h + carry) * k + wordZ / bit;
    WholeMultiple(h + carry, wordZ, bit, k);
    wordZ := CutBelow(wordZ, bit);
  }

  // ----- the words of the result

  lemma BelowDepends(w: seq<u32>, w': seq<u32>, i: nat)
    requires |w| == 4 && |w'| == 4 && i <= 4 && w[..i] == w'[..i]
    ensures Below(w, i) == Below(w', i)
  {
    if i > 0 {
      assert w[..i - 1] == w[..i][..i - 1] && w'[..i - 1] == w'[..i][..i - 1];
      assert w[i - 1] == w[..i][i - 1] && w'[i - 1] == w'[..i][i - 1];
      BelowDepends(w, w', i - 1);
    }
  }

  /** The words below i of w, with the value above and a carry still to come at i. */
  ghost function Total(w: seq<u32>, i: nat, above: nat, carry: nat): int
    requires |w| == 4 && i <= 4
  {
    Below(w, i) + (above + carry) * Base(i)
  }

  lemma CarryStep(above: nat, word: u32, carry: nat, z: u32, carry': nat, base: int)
    requires word + carry == carry' * TWO32 + z
    ensures (above * TWO32 + word + carry) * base == z * base + (above + carry') * (TWO32 * base)
  {
    assert above * TWO32 + word + carry == (above + carry') * TWO32 + z;
    MoveWord(above + carry', z, base);
  }

  lemma CarryIntoWord(a: seq<u32>, z: seq<u32>, i: nat, carry: nat, wordZ: u32, carry': nat)
    requires |a| == 4 && |z| == 4 && i <= 3
    requires a[i] + carry == carry' * TWO32 + wordZ
    ensures Total(z[i := wordZ], i + 1, Above(a, i + 1), carry') == Total(z, i, Above(a, i), carry)
  {
    var z' := z[i := wordZ];
    assert z'[..i] == z[..i];
    BelowDepends(z, z', i);
    assert Base(i + 1) == TWO32 * Base(i);
    CarryStep(Above(a, i + 1), a[i], carry, wordZ, carry', Base(i));
  }

  /** Copies the words above index with the carry added; the words together hold value. */
  method PropagateCarry(a: array<u32>, z: array<u32>, index0: nat, carry0: nat, ghost value: nat)
    requires a.Length == 4 && z.Length == 4 && index0 <= 3 && carry0 <= 1 && value < Base(4)
    requires Total(z[..], index0 + 1, Above(a[..], index0 + 1), carry0) == value
    modifies z
    ensures Val128(z[..]) == value
  {
    var index, carry := index0, carry0;
    ghost var a0 := a[..];
    while index != 3
      invariant index0 <= index <= 3 && carry <= 1
      invariant forall j :: index < j < 4 ==> a[j] == a0[j]
      invariant Total(z[..], index + 1, Above(a0, index + 1), carry) == value
      decreases 3 - index
    {
      index := index + 1;
      ghost var z0, carryIn := z[..], carry;
      var wordZ: u32 := (a[index] + carry) % 0x1_0000_0000;
      carry := if wordZ == 0 then carry else 0;
      CarryIntoWord(a0, z0, index, carryIn, wordZ, carry);
      z[index] := wordZ;
      assert z[..] == z0[index := wordZ];
    }
    WholeBelow(z[..]);
  }

  lemma WholeBelow(w: seq<u32>)
    requires |w| == 4
    ensures Val128(w) == Below(w, 4)
    ensures Above(w, 4) == 0
  {
    SplitBelow(w, 4);
  }

  // ----- the operation

  function ExpF128UI96(ui96: u32): nat {
    ui96 / 0x1_0000 % 0x8000
  }

  predicate SignF128UI96(ui96: u32) {
    ui96 >= 0x8000_0000
  }

  /** The place at which an encoding with this exponent has its units bit. */
  lemma PlaceOfUnits(index: nat, bits: nat)
    requires index <= 3 && bits <= 32
    ensures Pow2(32 * index + bits) == Base(index) * Pow2(bits)
    ensures Pow2(32 - bits) * Pow2(bits) == TWO32
    ensures bits == 32 ==> Pow2(32 - bits) == 1
    ensures bits < 32 ==> Pow2(32 - bits) % 2 == 0 && Pow2(bits) < TWO32
  {
    Pow2SmallValues();
    BaseIsPower(index);
    Pow2Add(32 * index, bits);
    Pow2Add(32 - bits, bits);
    if bits < 32 {
      Pow2Monotone(bits, 31);
      Pow2Even(32 - bits);
    }
  }

  lemma BaseIsPower(index: nat)
    requires index <= 3
    ensures Pow2(32 * index) == Base(index)
  {
    Pow2SmallValues();
    if index > 0 {
      BaseIsPower(index - 1);
      Pow2Add(32 * (index - 1), 32);
    }
  }

  /** Finds the word that holds the bit bitPos0, clearing the words below it. */
  method FindPlace(a: array<u32>, z: array<u32>, bitPos0: nat) returns (index: nat, bitPos: nat, extra: bool)
    requires a.Length == 4 && z.Length == 4 && bitPos0 < 128
    modifies z
    ensures index <= 3 && bitPos < 32 && bitPos0 == 32 * index + bitPos
    ensures extra <==> Below(old(a[..]), index) != 0
    ensures Below(z[..], index) == 0
    ensures forall j :: index <= j < 4 ==> a[j] == old(a[j])
  {
    index, bitPos, extra := 0, bitPos0, false;
    ghost var a0 := a[..];
    while bitPos >= 32
      invariant bitPos0 == 32 * index + bitPos && index <= 3
      invariant extra <==> Below(a0, index) != 0
      invariant Below(z[..], index) == 0
      invariant forall j :: index <= j < 4 ==> a[j] == a0[j]
      decreases bitPos
    {
      if a[index] != 0 {
        extra := true;
      }
      ghost var z0 := z[..];
      z[index] := 0;
      NextWord(a0, index);
      assert z[..index] == z0[..index];
      BelowDepends(z0, z[..], index);
      NextWord(z[..], index);
      index, bitPos := index + 1, bitPos - 32;
    }
  }

  lemma WordWritten(z: seq<u32>, index: nat, wordZ: u32, above: nat, carry: nat)
    requires |z| == 4 && index <= 3 && Below(z, index) == 0
    ensures Total(z[index := wordZ], index + 1, above, carry) == ((above + carry) * TWO32 + wordZ) * Base(index)
  {
    var z' := z[index := wordZ];
    assert z'[..index] == z[..index];
    BelowDepends(z, z', index);
    assert Base(index + 1) == TWO32 * Base(index);
    MoveWord(above + carry, wordZ, Base(index));
  }

  /** The words from index on, once the word at the place is known. */
  lemma PlaceWritten(z: seq<u32>, index: nat, wordZ: u32, h: nat, carry: nat, rounded: nat, c: int)
    requires |z| == 4 && index <= 3 && Below(z, index) == 0
    requires rounded * c == (h + carry) * TWO32 + wordZ
    ensures Total(z[index := wordZ], index + 1, h, carry) == rounded * (Base(index) * c)
  {
    WordWritten(z, index, wordZ, h, carry);
    Reordered(rounded, c, Base(index));
  }

  lemma Reordered(x: int, c: int, base: int)
    ensures x * c * base == x * (base * c)
  {
  }

  lemma TieValue(above: nat, word: nat, carry: nat, carry': nat, wordZ: nat)
    requires word + carry == carry' * TWO32 + wordZ
    ensures (above * TWO32 + word + carry) / 2 * 2 == (above + carry') * TWO32 + wordZ / 2 * 2
  {
    EvenSum(above + carry', wordZ);
  }

  lemma ClearedWord(z: seq<u32>, index: nat)
    requires |z| == 4 && index <= 2 && Below(z, index) == 0
    ensures Below(z[index := 0], index + 1) == 0 && Base(index + 1) == Base(index) * TWO32
  {
    var z' := z[index := 0];
    assert z'[..index] == z[..index];
    BelowDepends(z, z', index);
    NextWord(z', index);
  }

  lemma EvenSum(x: nat, w: nat)
    ensures (x * TWO32 + w) / 2 * 2 == x * TWO32 + w / 2 * 2
  {
  }

  lemma RoundedBound(mode: RoundingMode, sign: bool, u: nat, p: int)
    requires p > 0
    ensures 0 <= RoundMag(mode, sign, u, p) * p <= u + p
  {
    DivMod(u, p);
    assert (u / p + 1) * p == u / p * p + p;
    MulLe(0, RoundMag(mode, sign, u, p), p);
  }

  lemma NoOverflow(mode: RoundingMode, sign: bool, w: seq<u32>, n: nat)
    requires |w| == 4 && ExpF128UI96(w[3]) < 0x406F && n <= 112
    ensures 0 <= RoundMag(mode, sign, Val128(w), Pow2(n)) * Pow2(n) < Base(4)
  {
    RoundedBound(mode, sign, Val128(w), Pow2(n));
    SplitAt(w, 3);
    var top: nat := 112;
    Pow2Monotone(n, top);
    PowTop(top);
  }

  /** The place of the units bit, bits above the bottom of word index, and the value around it. */
  ghost predicate IsPlace(a: seq<u32>, n: nat, index: nat, bits: nat)
    requires |a| == 4
  {
    index <= 3 && bits <= 32 && n == 32 * index + bits && n <= 112 && ExpF128UI96(a[3]) < 0x406F
  }

  /** The rounded magnitude that the words have to hold in the end. */
  ghost function Target(mode: RoundingMode, sign: bool, a: seq<u32>, n: nat): nat
    requires |a| == 4
  {
    RoundedBound(mode, sign, Val128(a), Pow2(n));
    RoundMag(mode, sign, Val128(a), Pow2(n)) * Pow2(n)
  }

  lemma TargetAtPlace(mode: RoundingMode, sign: bool, a: seq<u32>, n: nat, index: nat, bits: nat)
    requires |a| == 4 && IsPlace(a, n, index, bits)
    ensures Target(mode, sign, a, n)
            == RoundedAt(mode, sign, Above(a, index + 1), a[index], Below(a, index), Base(index), Pow2(bits))
               * (Base(index) * Pow2(bits))
    ensures LosesBits(Above(a, index + 1), a[index], Below(a, index), Base(index), Pow2(bits))
            <==> Val128(a) % Pow2(n) != 0
  {
    SplitAt(a, index);
    PlaceOfUnits(index, bits);
    WordView(mode, sign, Above(a, index + 1), a[index], Below(a, index), Base(index), Pow2(bits), Val128(a), Pow2(n));
  }

  lemma WordView(mode: RoundingMode, sign: bool, h: nat, word: u32, low: nat, base: int, c: int, u: nat, p: int)
    requires base > 0 && low < base && c > 0 && p == base * c && p > 0
    requires u == (h * TWO32 + word) * base + low
    ensures RoundMag(mode, sign, u, p) * p == RoundedAt(mode, sign, h, word, low, base, c) * (base * c)
    ensures LosesBits(h, word, low, base, c) <==> u % p != 0
  {
  }

  /** Rounds the word at the place. */
  method RoundWord(s: FloatState, mode: RoundingMode, exact: bool, wordA: u32, bitPos: nat, extra: bool,
                   sign: bool, ghost bits: nat, ghost h: nat, ghost low: nat, ghost base: int)
    returns (wordZ: u32, carry: nat, tieAbove: bool)
    requires bitPos < 32 && bits == bitPos + if mode.NearMaxMag? || mode.NearEven? then 1 else 0
    requires base > 0 && low < base && (extra <==> low != 0)
    modifies s`exceptionFlags
    ensures carry <= 1
    ensures !tieAbove ==> RoundedAt(mode, sign, h, wordA, low, base, Pow2(bits)) * Pow2(bits) == (h + carry) * TWO32 + wordZ
    ensures tieAbove ==> bits == 32 && wordZ == 0
                         && RoundedAt(mode, sign, h, wordA, low, base, Pow2(bits)) == (h + carry) / 2 * 2
    ensures s.exceptionFlags == old(s.exceptionFlags)
              + if exact && LosesBits(h, wordA, low, base, Pow2(bits)) then {Inexact} else {}
  {
    PlaceOfUnits(0, bits);
    ghost var k := Pow2(32 - bits);
    var bit: u32 := PowerOfWord(bitPos);
    if mode.NearMaxMag? || mode.NearEven? {
      wordZ, carry, tieAbove := RoundWordNear(s, mode, exact, wordA, bit, extra, sign, h, low, base, k);
    } else {
      tieAbove := false;
      wordZ, carry := RoundWordDirected(s, mode, exact, wordA, bit, extra, sign, h, low, base, k);
    }
  }

  /** Values with an integer and a fraction part: the four words, read as one integer, are rounded at
      the place of the units bit. The words may be rounded where they stand. */
  method RoundInPlace(s: FloatState, a: array<u32>, z: array<u32>, mode: RoundingMode, exact: bool)
    requires a.Length == 4 && z.Length == 4
    requires 0x3FFF <= ExpF128UI96(a[3]) < 0x406F
    modifies z, s`exceptionFlags
    ensures Val128(z[..]) == Target(mode, SignF128UI96(old(a[3])), old(a[..]), 0x406F - ExpF128UI96(old(a[3])))
    ensures s.exceptionFlags == old(s.exceptionFlags)
              + if exact && Val128(old(a[..])) % Pow2(0x406F - ExpF128UI96(old(a[3]))) != 0 then {Inexact} else {}
  {
    ghost var a0 := a[..];
    var sign, exp := SignF128UI96(a[3]), ExpF128UI96(a[3]);
    ghost var n: nat := 0x406F - exp;
    var roundNear := mode.NearMaxMag? || mode.NearEven?;
    var index, bitPos, extra := FindPlace(a, z, 0x406F - exp - if roundNear then 1 else 0);
    ghost var bits := bitPos + if roundNear then 1 else 0;
    ghost var h, low, base := Above(a0, index + 1), Below(a0, index), Base(index);
    ghost var target := Target(mode, sign, a0, n);
    TargetAtPlace(mode, sign, a0, n, index, bits);
    ghost var rounded := RoundedAt(mode, sign, h, a0[index], low, base, Pow2(bits));
    assert target < Base(4) by {
      NoOverflow(mode, sign, a0, n);
    }
    var wordZ, carry, tieAbove := RoundWord(s, mode, exact, a[index], bitPos, extra, sign, bits, h, low, base);
    WriteRounded(a, z, index, wordZ, carry, tieAbove, a0, bits, rounded, target);
  }

  /** Writes what the rounding of the word at the place decided. */
  method WriteRounded(a: array<u32>, z: array<u32>, index: nat, wordZ: u32, carry: nat, tieAbove: bool,
                      ghost a0: seq<u32>, ghost bits: nat, ghost rounded: nat, ghost value: nat)
    requires a.Length == 4 && z.Length == 4 && index <= 3 && carry <= 1 && |a0| == 4
    requires forall j :: index <= j < 4 ==> a[j] == a0[j]
    requires Below(z[..], index) == 0 && value < Base(4) && value == rounded * (Base(index) * Pow2(bits))
    requires !tieAbove ==> rounded * Pow2(bits) == (Above(a0, index + 1) + carry) * TWO32 + wordZ
    requires tieAbove ==> index <= 2 && bits == 32 && wordZ == 0 && rounded == (Above(a0, index + 1) + carry) / 2 * 2
    modifies z
    ensures Val128(z[..]) == value
  {
    if tieAbove {
      Pow2SmallValues();
      assert Base(index + 1) == Base(index) * Pow2(bits);
      WriteTie(a, z, index, wordZ, carry, a0, rounded, value);
    } else {
      PlaceWritten(z[..], index, wordZ, Above(a0, index + 1), carry, rounded, Pow2(bits));
      WriteWord(a, z, index, wordZ, carry, a0, value);
    }
  }

  /** Writes the rounded word and passes the carry on. */
  method WriteWord(a: array<u32>, z: array<u32>, index: nat, wordZ: u32, carry: nat, ghost a0: seq<u32>, ghost value: nat)
    requires a.Length == 4 && z.Length == 4 && index <= 3 && carry <= 1 && |a0| == 4
    requires forall j :: index <= j < 4 ==> a[j] == a0[j]
    requires value < Base(4)
    requires Total(z[..][index := wordZ], index + 1, Above(a0, index + 1), carry) == value
    modifies z
    ensures Val128(z[..]) == value
  {
    ghost var z0 := z[..];
    z[index] := wordZ;
    assert z[..] == z0[index := wordZ];
    AboveDepends(a0, a[..], index + 1);
    PropagateCarry(a, z, index, carry, value);
  }

  function PowerOfWord(bitPos: nat): (bit: u32)
    requires bitPos < 32
    ensures bit == Pow2(bitPos)
  {
    Pow2SmallValues();
    Pow2Monotone(bitPos, 31);
    Pow2(bitPos)
  }

  lemma AboveDepends(w: seq<u32>, w': seq<u32>, i: nat)
    requires |w| == 4 && |w'| == 4 && i <= 4
    requires forall j :: i <= j < 4 ==> w[j] == w'[j]
    ensures Above(w, i) == Above(w', i)
    decreases 4 - i
  {
    if i < 4 {
      AboveDepends(w, w', i + 1);
    }
  }

  /** The tie whose deciding bit is in the next word: both words are written, then the carry goes on. */
  method WriteTie(a: array<u32>, z: array<u32>, index0: nat, wordZ0: u32, carry0: nat,
                  ghost a0: seq<u32>, ghost even: nat, ghost value: nat)
    requires a.Length == 4 && z.Length == 4 && index0 <= 2 && wordZ0 == 0 && carry0 <= 1 && |a0| == 4
    requires forall j :: index0 <= j < 4 ==> a[j] == a0[j]
    requires Below(z[..], index0) == 0 && value < Base(4)
    requires even == (Above(a0, index0 + 1) + carry0) / 2 * 2 && value == even * Base(index0 + 1)
    modifies z
    ensures Val128(z[..]) == value
  {
    ghost var z0 := z[..];
    z[index0] := wordZ0;
    ghost var z1: seq<u32> := z0[index0 := 0];
    assert z[..] == z1;
    ClearedWord(z0, index0);
    var index := index0 + 1;
    var wordZ: u32 := (a[index] + carry0) % 0x1_0000_0000;
    var carry := if wordZ == 0 then carry0 else 0;
    var cleared: u32 := wordZ / 2 * 2;
    NextWord(a0, index);
    TieValue(Above(a0, index + 1), a0[index], carry0, carry, wordZ);
    WordWritten(z1, index, cleared, Above(a0, index + 1), carry);
    z[index] := cleared;
    assert z[..] == z1[index := cleared];
    AboveDepends(a0, a[..], index + 1);
    PropagateCarry(a, z, index, carry, value);
  }

  // ----- the meaning of the encoding

  const TWO112: int := 0x1_0000_0000_0000_0000_0000_0000_0000

  /** Sign and exponent as one number, and the fraction, of an encoding. */
  ghost function SignExp(w: seq<u32>): nat
    requires |w| == 4
  {
    w[3] / 0x1_0000
  }

  ghost function Frac(w: seq<u32>): nat
    requires |w| == 4
  {
    w[3] % 0x1_0000 * Base(3) + Below(w, 3)
  }

  /** The significand, with its implicit bit for normal values. */
  ghost function Sig(w: seq<u32>): nat
    requires |w| == 4
  {
    Frac(w) + if ExpF128UI96(w[3]) == 0 then 0 else TWO112
  }

  lemma EncodingParts(w: seq<u32>)
    requires |w| == 4
    ensures Val128(w) == SignExp(w) * TWO112 + Frac(w) && Frac(w) < TWO112
    ensures ExpF128UI96(w[3]) == SignExp(w) % 0x8000
    ensures SignF128UI96(w[3]) <==> SignExp(w) >= 0x8000
    ensures SignExp(w) < 0x1_0000
  {
    SplitBelow(w, 3);
    NextWord(w, 3);
  }

  lemma PartsUnique(w: seq<u32>, k: nat, f: nat)
    requires |w| == 4 && Val128(w) == k * TWO112 + f && f < TWO112
    ensures SignExp(w) == k && Frac(w) == f
  {
    EncodingParts(w);
  }

  /** How many bits of the significand lie below the units bit. */
  ghost function FractionBits(w: seq<u32>): nat
    requires |w| == 4 && ExpF128UI96(w[3]) < 0x406F
  {
    0x406F - if ExpF128UI96(w[3]) == 0 then 1 else ExpF128UI96(w[3])
  }

  /** The units that the value rounds to. */
  ghost function IntegralMag(mode: RoundingMode, w: seq<u32>): nat
    requires |w| == 4 && ExpF128UI96(w[3]) < 0x406F
  {
    RoundMag(mode, SignF128UI96(w[3]), Sig(w), Pow2(FractionBits(w)))
  }

  /** Whether the value is not an integer. */
  ghost predicate HasFraction(w: seq<u32>)
    requires |w| == 4 && ExpF128UI96(w[3]) < 0x406F
  {
    Sig(w) % Pow2(FractionBits(w)) != 0
  }

  /** z is the integer m, with the sign of w: its significand counts m in units of its last place. */
  ghost predicate IsInteger(w: seq<u32>, z: seq<u32>, m: nat)
    requires |w| == 4 && |z| == 4
  {
    && (SignF128UI96(z[3]) <==> SignF128UI96(w[3]))
    && (if m == 0 then Sig(z) == 0
        else 0x3FFF <= ExpF128UI96(z[3]) <= 0x406F && Sig(z) == m * Pow2(0x406F - ExpF128UI96(z[3])))
  }

  lemma UnitsBit(n: nat)
    requires 1 <= n <= 112
    ensures Pow2(112 - n) * Pow2(n) == TWO112
    ensures n < 112 ==> Pow2(112 - n) % 2 == 0
  {
    var top: nat := 112;
    Pow2Add(top - n, n);
    PowTop(top);
    if n < 112 {
      Pow2Even(top - n);
    }
  }

  lemma PowTop(n: nat)
    requires n == 112
    ensures Pow2(n) == TWO112
  {
    Pow2Values();
    Pow2Add(64, 32);
    Pow2Add(96, 16);
  }

  /** Sign and exponent at the top shift the rounding by a whole, even number of units. */
  lemma RoundedEncoding(mode: RoundingMode, sign: bool, k: nat, frac: nat, p: int, t: int)
    requires p > 0 && t > 0 && t * p == TWO112 && k > 0 && frac < TWO112 && (t % 2 == 0 || (k - 1) % 2 == 0)
    ensures var m := RoundMag(mode, sign, TWO112 + frac, p);
            && RoundMag(mode, sign, k * TWO112 + frac, p) * p == (k - 1) * TWO112 + m * p
            && TWO112 <= m * p <= 2 * TWO112
    ensures (k * TWO112 + frac) % p == (TWO112 + frac) % p
  {
    var j := (k - 1) * t;
    EvenFactor(k - 1, t);
    MulAssoc(k - 1, t, p);
    RoundedOffset(mode, sign, TWO112 + frac, p, j, k * TWO112 + frac, (k - 1) * TWO112);
    RoundedRange(mode, sign, TWO112 + frac, p, t);
  }

  lemma RoundedOffset(mode: RoundingMode, sign: bool, num: nat, p: int, j: nat, whole: nat, jp: int)
    requires p > 0 && j % 2 == 0 && jp == j * p && whole == num + jp
    ensures RoundMag(mode, sign, whole, p) * p == jp + RoundMag(mode, sign, num, p) * p
    ensures whole % p == num % p
  {
    RoundMagOffset(mode, sign, num, p, j);
    SumProduct(RoundMag(mode, sign, num, p), j, p);
  }

  lemma SumProduct(x: int, y: int, p: int)
    ensures (x + y) * p == x * p + y * p
  {
  }

  lemma EvenFactor(x: nat, t: nat)
    requires x % 2 == 0 || t % 2 == 0
    ensures x * t >= 0 && (x * t) % 2 == 0
  {
    if x % 2 == 0 {
      assert x * t == 2 * (x / 2 * t);
    } else {
      assert x * t == 2 * (t / 2 * x);
    }
  }

  lemma RoundedRange(mode: RoundingMode, sign: bool, sig: nat, p: int, t: int)
    requires p > 0 && t > 0 && t * p == TWO112 && TWO112 <= sig < 2 * TWO112
    ensures TWO112 <= RoundMag(mode, sign, sig, p) * p <= 2 * TWO112
  {
    RoundMagExact(mode, sign, t, p);
    RoundMagExact(mode, sign, 2 * t, p);
    MulAssoc(2, t, p);
    RoundMagOrder(mode, sign, TWO112, sig, p);
    RoundMagOrder(mode, sign, sig, 2 * TWO112, p);
    MulLe(t, RoundMag(mode, sign, sig, p), p);
    MulLe(RoundMag(mode, sign, sig, p), 2 * t, p);
  }

  lemma DecodedWords(w: seq<u32>, z: seq<u32>, mp: nat)
    requires |w| == 4 && |z| == 4 && 0x3FFF <= ExpF128UI96(w[3]) < 0x406F
    requires TWO112 <= mp <= 2 * TWO112 && Val128(z) == (SignExp(w) - 1) * TWO112 + mp
    ensures SignF128UI96(z[3]) <==> SignF128UI96(w[3])
    ensures mp < 2 * TWO112 ==> ExpF128UI96(z[3]) == ExpF128UI96(w[3]) && Sig(z) == mp
    ensures mp == 2 * TWO112 ==> ExpF128UI96(z[3]) == ExpF128UI96(w[3]) + 1 && Sig(z) == TWO112
  {
    EncodingParts(w);
    EncodingParts(z);
    if mp < 2 * TWO112 {
      PartsUnique(z, SignExp(w), mp - TWO112);
    } else {
      PartsUnique(z, SignExp(w) + 1, 0);
    }
  }

  /** Rounding the words as one integer rounds the value: the carry that runs into the exponent is the
      normalization of a significand that rounded up to the next power of two. */
  lemma RoundedWordsAreRoundedValue(mode: RoundingMode, w: seq<u32>, z: seq<u32>)
    requires |w| == 4 && |z| == 4 && 0x3FFF <= ExpF128UI96(w[3]) < 0x406F
    requires Val128(z) == Target(mode, SignF128UI96(w[3]), w, 0x406F - ExpF128UI96(w[3]))
    ensures IsInteger(w, z, IntegralMag(mode, w)) && IntegralMag(mode, w) > 0
    ensures Val128(w) % Pow2(0x406F - ExpF128UI96(w[3])) != 0 <==> HasFraction(w)
  {
    var n: nat := 0x406F - ExpF128UI96(w[3]);
    TargetInParts(mode, w, n);
    DecodedWords(w, z, IntegralMag(mode, w) * Pow2(n));
    IntegerWords(w, z, IntegralMag(mode, w), n);
  }

  lemma TargetInParts(mode: RoundingMode, w: seq<u32>, n: nat)
    requires |w| == 4 && 1 <= n <= 112 && ExpF128UI96(w[3]) == 0x406F - n
    ensures SignExp(w) > 0
    ensures Target(mode, SignF128UI96(w[3]), w, n) == (SignExp(w) - 1) * TWO112 + IntegralMag(mode, w) * Pow2(n)
    ensures TWO112 <= IntegralMag(mode, w) * Pow2(n) <= 2 * TWO112
    ensures Val128(w) % Pow2(n) != 0 <==> HasFraction(w)
  {
    EncodingParts(w);
    UnitsBit(n);
    OddExponent(SignExp(w), n);
    RoundedEncoding(mode, SignF128UI96(w[3]), SignExp(w), Frac(w), Pow2(n), Pow2(112 - n));
  }

  lemma OddExponent(k: nat, n: nat)
    requires k % 0x8000 == 0x406F - n && 1 <= n <= 112
    ensures k > 0 && (n == 112 ==> (k - 1) % 2 == 0)
  {
  }

  lemma IntegerWords(w: seq<u32>, z: seq<u32>, m: nat, n: nat)
    requires |w| == 4 && |z| == 4 && 1 <= n <= 112 && ExpF128UI96(w[3]) == 0x406F - n
    requires TWO112 <= m * Pow2(n) <= 2 * TWO112
    requires SignF128UI96(z[3]) <==> SignF128UI96(w[3])
    requires m * Pow2(n) < 2 * TWO112 ==> ExpF128UI96(z[3]) == 0x406F - n && Sig(z) == m * Pow2(n)
    requires m * Pow2(n) == 2 * TWO112 ==> ExpF128UI96(z[3]) == 0x406F - n + 1 && Sig(z) == TWO112
    ensures IsInteger(w, z, m) && m > 0
  {
    HalvedProduct(m, n);
  }

  lemma HalvedProduct(m: nat, n: nat)
    requires n > 0
    ensures m * Pow2(n) == 2 * (m * Pow2(n - 1))
    ensures m * Pow2(n) > 0 ==> m > 0
  {
  }

  // ----- values below 1, and the whole operation

  /** Which non-zero values below 1 become 1 rather than 0. */
  predicate TinyRoundsUp(mode: RoundingMode, sign: bool, exp: nat, fracIsZero: bool) {
    match mode
    case NearEven => !fracIsZero && exp == 0x3FFE
    case NearMaxMag => exp == 0x3FFE
    case MinMag => false
    case Min => sign
    case Max => !sign
    case Odd => true
  }

  lemma TinyRounding(mode: RoundingMode, w: seq<u32>)
    requires |w| == 4 && ExpF128UI96(w[3]) < 0x3FFF
    ensures HasFraction(w) <==> Sig(w) != 0
    ensures IntegralMag(mode, w)
            == if Sig(w) != 0 && TinyRoundsUp(mode, SignF128UI96(w[3]), ExpF128UI96(w[3]), Frac(w) == 0) then 1 else 0
  {
    EncodingParts(w);
    TinyPlace(FractionBits(w));
    DivModUnique(Sig(w), Pow2(FractionBits(w)), 0, Sig(w));
  }

  lemma TinyPlace(n: nat)
    requires n >= 113
    ensures Pow2(n) >= 2 * TWO112
    ensures n == 113 ==> Pow2(n) == 2 * TWO112
    ensures n > 113 ==> Pow2(n) >= 4 * TWO112
  {
    var top: nat := 112;
    PowTop(top);
    Pow2Monotone(if n == 113 then top + 1 else top + 2, n);
    assert Pow2(top + 2) == 2 * Pow2(top + 1) == 4 * Pow2(top);
  }

  function PackToF128UI96(sign: bool, exp: nat): u32
    requires exp < 0x8000
  {
    (if sign then 0x8000_0000 else 0) + exp * 0x1_0000
  }

  lemma SmallInteger(w: seq<u32>, z: seq<u32>, m: nat)
    requires |w| == 4 && |z| == 4 && m <= 1
    requires z == [0, 0, 0, PackToF128UI96(SignF128UI96(w[3]), if m == 1 then 0x3FFF else 0)]
    ensures IsInteger(w, z, m)
  {
    LowWords(z);
    var top: nat := 112;
    PowTop(top);
  }

  /** Values below 1, zero included. The low words of the result are cleared before those of the operand are
      read, so rounding in place loses them. */
  method RoundTiny(s: FloatState, a: array<u32>, z: array<u32>, mode: RoundingMode, exact: bool)
    requires a.Length == 4 && z.Length == 4 && ExpF128UI96(a[3]) < 0x3FFF
    modifies z, s`exceptionFlags
    ensures var w := if a == z then [0, 0, 0, old(a[3])] else old(a[..]);
            && IsInteger(w, z[..], IntegralMag(mode, w))
            && s.exceptionFlags == old(s.exceptionFlags) + if exact && HasFraction(w) then {Inexact} else {}
  {
    ghost var w := if a == z then [0, 0, 0, a[3]] else a[..];
    var ui96 := a[3];
    z[2], z[1], z[0] := 0, 0, 0;
    var sigExtra := a[2] != 0 || a[1] != 0 || a[0] != 0;
    LowWords(w);
    TinyRounding(mode, w);
    assert sigExtra <==> w[2] != 0 || w[1] != 0 || w[0] != 0;
    var sign := SignF128UI96(ui96);
    ghost var m := IntegralMag(mode, w);
    if sigExtra || ui96 % 0x8000_0000 != 0 {
      if exact {
        s.RaiseFlags({Inexact});
      }
      var one := TinyRoundsUp(mode, sign, ExpF128UI96(ui96), ui96 % 0x1_0000 == 0 && !sigExtra);
      ui96 := PackToF128UI96(sign, if one then 0x3FFF else 0);
    }
    z[3] := ui96;
    assert z[..] == [0, 0, 0, ui96];
    SmallInteger(w, [0, 0, 0, ui96], m);
  }

  lemma LowWords(w: seq<u32>)
    requires |w| == 4
    ensures Below(w, 3) == 0 <==> w[0] == 0 && w[1] == 0 && w[2] == 0
    ensures Frac(w) == 0 <==> w[3] % 0x1_0000 == 0 && w[0] == 0 && w[1] == 0 && w[2] == 0
    ensures Sig(w) == 0 <==> w[3] % 0x8000_0000 == 0 && w[0] == 0 && w[1] == 0 && w[2] == 0
  {
    NextWord(w, 0);
    NextWord(w, 1);
    NextWord(w, 2);
    TopWord(w[3]);
  }

  lemma TopWord(ui96: u32)
    ensures ui96 % 0x8000_0000 == 0 <==> ExpF128UI96(ui96) == 0 && ui96 % 0x1_0000 == 0
  {
  }

  /** Rounds the four words of a to an integral value in z. NaNs are left to the propagation helper. */
  method F128MRoundToInt(s: FloatState, a: array<u32>, z: array<u32>, mode: RoundingMode, exact: bool) returns (nan: bool)
    requires a.Length == 4 && z.Length == 4
    modifies z, s`exceptionFlags
    ensures nan <==> ExpF128UI96(old(a[3])) == 0x7FFF && Frac(old(a[..])) != 0
    ensures !nan && ExpF128UI96(old(a[3])) >= 0x406F ==>
              z[..] == old(a[..]) && s.exceptionFlags == old(s.exceptionFlags)
    ensures var w := old(a[..]);
            ExpF128UI96(w[3]) < 0x406F
            && (a != z || ExpF128UI96(w[3]) >= 0x3FFF || (w[0] == 0 && w[1] == 0 && w[2] == 0)) ==>
              && IsInteger(w, z[..], IntegralMag(mode, w))
              && s.exceptionFlags == old(s.exceptionFlags) + (if exact && HasFraction(w) then {Inexact} else {})
    ensures a == z && ExpF128UI96(old(a[3])) < 0x3FFF ==>
              var w := [0, 0, 0, old(a[3])];
              && IsInteger(w, z[..], IntegralMag(mode, w))
              && s.exceptionFlags == old(s.exceptionFlags) + (if exact && HasFraction(w) then {Inexact} else {})
  {
    nan := false;
    var exp := ExpF128UI96(a[3]);
    LowWords(a[..]);
    if exp < 0x3FFF {
      assert a[..] == [a[0], a[1], a[2], a[3]];
      RoundTiny(s, a, z, mode, exact);
    } else if 0x406F <= exp {
      if exp == 0x7FFF && (a[3] % 0x1_0000 != 0 || a[2] != 0 || a[1] != 0 || a[0] != 0) {
        return true;
      }
      z[2], z[1], z[0] := a[2], a[1], a[0];
      z[3] := a[3];
    } else {
      RoundLarge(s, a, z, mode, exact);
    }
  }

  /** Values from 1 on that can have a fraction. */
  method RoundLarge(s: FloatState, a: array<u32>, z: array<u32>, mode: RoundingMode, exact: bool)
    requires a.Length == 4 && z.Length == 4 && 0x3FFF <= ExpF128UI96(a[3]) < 0x406F
    modifies z, s`exceptionFlags
    ensures var w := old(a[..]);
            && IsInteger(w, z[..], IntegralMag(mode, w))
            && s.exceptionFlags == old(s.exceptionFlags) + if exact && HasFraction(w) then {Inexact} else {}
  {
    ghost var w := a[..];
    RoundInPlace(s, a, z, mode, exact);
    RoundedWordsAreRoundedValue(mode, w, z[..]);
  }

  /** The integer that the result holds is the rounding the mode asks for of the exact value. */
  lemma IntegralMagIsRounding(mode: RoundingMode, w: seq<u32>)
    requires |w| == 4 && ExpF128UI96(w[3]) < 0x406F
    ensures var sign := SignF128UI96(w[3]);
            IsRounding(mode, Negate(sign, Sig(w)), Pow2(FractionBits(w)), Negate(sign, IntegralMag(mode, w)))
  {
    RoundMagIsRounding(mode, SignF128UI96(w[3]), Sig(w), Pow2(FractionBits(w)));
  }

  /** Below 1, rounding in place gives what rounding into other words gives unless the low words alone
      decide: for values that are non-zero only there, when the mode rounds them up, and for those that
      are a half only without them, to nearest even. */
  lemma InPlaceAgrees(mode: RoundingMode, w: seq<u32>)
    requires |w| == 4 && ExpF128UI96(w[3]) < 0x3FFF
    ensures IntegralMag(mode, [0, 0, 0, w[3]]) == IntegralMag(mode, w)
            <==> !((w[0] != 0 || w[1] != 0 || w[2] != 0)
                   && ((w[3] == 0 && (mode.Max? || mode.Odd?)) || (w[3] == 0x8000_0000 && (mode.Min? || mode.Odd?))
                       || (mode.NearEven? && (w[3] == 0x3FFE_0000 || w[3] == 0xBFFE_0000))))
  {
    var cleared := [0, 0, 0, w[3]];
    LowWords(w);
    LowWords(cleared);
    TinyRounding(mode, w);
    TinyRounding(mode, cleared);
  }

  /** Rounding in place notices the same loss, and so raises the same flag, except for subnormal values that
      are non-zero only in the low words: they are taken for zero. */
  lemma InPlaceFlagAgrees(w: seq<u32>)
    requires |w| == 4 && ExpF128UI96(w[3]) < 0x3FFF
    ensures HasFraction([0, 0, 0, w[3]]) == HasFraction(w)
            <==> !(w[3] % 0x8000_0000 == 0 && (w[0] != 0 || w[1] != 0 || w[2] != 0))
  {
    var cleared := [0, 0, 0, w[3]];
    LowWords(w);
    LowWords(cleared);
    TinyRounding(NearEven, w);
    TinyRounding(NearEven, cleared);
  }

  /** One unit in the last place above a half rounds to 1, and in place to 0. */
  lemma InPlaceMissesHalf(w: seq<u32>)
    requires w == [1, 0, 0, 0x3FFE_0000]
    ensures IntegralMag(NearEven, w) == 1 && IntegralMag(NearEven, [0, 0, 0, w[3]]) == 0
  {
    LowWords(w);
    LowWords([0, 0, 0, w[3]]);
    TinyRounding(NearEven, w);
    TinyRounding(NearEven, [0, 0, 0, w[3]]);
  }

  /** The least positive value rounds up to 1 and is not an integer; in place it is taken for zero, which is
      one, so that neither the result nor the flag is right. */
  lemma InPlaceMissesLeast(w: seq<u32>)
    requires w == [1, 0, 0, 0]
    ensures IntegralMag(Max, w) == 1 && IntegralMag(Max, [0, 0, 0, w[3]]) == 0
    ensures HasFraction(w) && !HasFraction([0, 0, 0, w[3]])
  {
    LowWords(w);
    LowWords([0, 0, 0, w[3]]);
    TinyRounding(Max, w);
    TinyRounding(Max, [0, 0, 0, w[3]]);
  }
}

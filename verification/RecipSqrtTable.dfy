/** The table of reciprocal square roots, and a proof that it is as accurate as the square root needs: for
    every significand of either parity the value is never above the reciprocal root and at most 2.1 units in
    the last place below it. */
module RecipSqrtTable {
  import opened Words
  import opened PowersOfTwo
  import opened SqrtEstimate

  const K0s: seq<int> := [
    0xB4C9, 0xFFAB, 0xAA7D, 0xF11C, 0xA1C5, 0xE4C7, 0x9A43, 0xDA29,
    0x93B5, 0xD0E5, 0x8DED, 0xC8B7, 0x88C6, 0xC16D, 0x8424, 0xBAE1]
  const K1s: seq<int> := [
    0xA5A5, 0xEA42, 0x8C21, 0xC62D, 0x788F, 0xAA7F, 0x6928, 0x94B6,
    0x5CC7, 0x8335, 0x52A6, 0x74E2, 0x4A3E, 0x68FE, 0x432B, 0x5EFD]

  /** A table entry, corrected linearly by the bits of the significand below its first three. */
  function TableEntry(oddExpA: nat, a: u32): (r0: nat)
    requires oddExpA <= 1
    ensures r0 < 0x1_0000
  {
    var index := a / 0x1000_0000 % 8 * 2 + oddExpA;
    var eps := a / 0x1000 % 0x1_0000;
    (K0s[index] - K1s[index] * eps / 0x10_0000) % 0x1_0000
  }

  /** The entry refined once; sums and products in the widths of the code. */
  function Refinement(oddExpA: nat, a: u32, r0: nat): u32 {
    FromSigma(r0, Sigma0(r0 * r0 * (if oddExpA == 0 then 2 else 1) % TWO32, a))
  }

  function Sigma0(eSqrR0: nat, a: u32): u32 {
    TWO32 - 1 - eSqrR0 * a / 0x80_0000 % TWO32
  }

  function FromSigma(r0: nat, sigma0: u32): u32 {
    var r1 := r0 * 0x1_0000 + r0 * sigma0 / 0x200_0000;
    var sqrSigma0 := sigma0 * sigma0 / TWO32;
    (r1 + (r1 / 2 + r1 / 8 - r0 * 0x4000) % TWO32 * sqrSigma0 / 0x1_0000_0000_0000) % TWO32
  }

  function ApproxRecipSqrt32(oddExpA: nat, a: u32): (r: u32)
    requires oddExpA <= 1
    ensures r >= 0x8000_0000
  {
    var r := Refinement(oddExpA, a, TableEntry(oddExpA, a));
    if r < 0x8000_0000 then 0x8000_0000 else r
  }

  // ----- the first value, row by row

  const TWO103: int := 0x80_0000_0000_0000_0000_0000_0000

  /** How far the square of the first value times the significand may be below one, in units of 2^-103. */
  const LOWEST: int := 0x7F_A4BF_FFFF_8000_0000_0000_0000

  /** A row of the table: its entry k0, its slope k1, the first four bits of its significands, and 2 for even
      exponents, 1 for odd ones. The square of a falling line times a rising one has its peak below one, is
      concave, and large enough at both ends. */
  predicate RowFits(k0: int, k1: int, lead: int, f: int) {
    && (f == 1 || f == 2) && 0 < k1 && Line(k0, k1, 65535) > 0 && k0 < 0x1_0000
    && f * (4 * Cube(Peak(k0, k1, lead))) < 27 * (4096 * 4096 * k1) * TWO103
    && k1 * (lead * 0x1000_0000) + 2 * 65535 * k1 * 4096 <= 2 * (k0 * 0x10_0000) * 4096
    && f * (Line(k0, k1, 0) * Line(k0, k1, 0) * Start(lead, 0)) >= LOWEST
    && f * (Line(k0, k1, 65535) * Line(k0, k1, 65535) * Start(lead, 65535)) >= LOWEST
  }

  function Cube(x: int): int {
    x * x * x
  }

  function Peak(k0: int, k1: int, lead: int): int {
    k1 * (lead * 0x1000_0000 + 4095) + 4096 * ((k0 + 1) * 0x10_0000 - 1)
  }

  function Line(k0: int, k1: int, t: int): int {
    k0 * 0x10_0000 - k1 * t
  }

  function Start(lead: int, t: int): int {
    lead * 0x1000_0000 + 4096 * t
  }

  lemma Row0()
    ensures RowFits(0xB4C9, 0xA5A5, 8, 2)
  {
  }

  lemma Row1()
    ensures RowFits(0xFFAB, 0xEA42, 8, 1)
  {
  }

  lemma Row2()
    ensures RowFits(0xAA7D, 0x8C21, 9, 2)
  {
  }

  lemma Row3()
    ensures RowFits(0xF11C, 0xC62D, 9, 1)
  {
  }

  lemma Row4()
    ensures RowFits(0xA1C5, 0x788F, 10, 2)
  {
  }

  lemma Row5()
    ensures RowFits(0xE4C7, 0xAA7F, 10, 1)
  {
  }

  lemma Row6()
    ensures RowFits(0x9A43, 0x6928, 11, 2)
  {
  }

  lemma Row7()
    ensures RowFits(0xDA29, 0x94B6, 11, 1)
  {
  }

  lemma Row8()
    ensures RowFits(0x93B5, 0x5CC7, 12, 2)
  {
  }

  lemma Row9()
    ensures RowFits(0xD0E5, 0x8335, 12, 1)
  {
  }

  lemma Row10()
    ensures RowFits(0x8DED, 0x52A6, 13, 2)
  {
  }

  lemma Row11()
    ensures RowFits(0xC8B7, 0x74E2, 13, 1)
  {
  }

  lemma Row12()
    ensures RowFits(0x88C6, 0x4A3E, 14, 2)
  {
  }

  lemma Row13()
    ensures RowFits(0xC16D, 0x68FE, 14, 1)
  {
  }

  lemma Row14()
    ensures RowFits(0x8424, 0x432B, 15, 2)
  {
  }

  lemma Row15()
    ensures RowFits(0xBAE1, 0x5EFD, 15, 1)
  {
  }

  lemma EvenRows(n: nat, k0: int, k1: int)
    requires n < 8 && k0 == K0s[2 * n] && k1 == K1s[2 * n]
    ensures RowFits(k0, k1, 8 + n, 2)
  {
    if n == 0 {
      Row0();
    } else if n == 1 {
      Row2();
    } else if n == 2 {
      Row4();
    } else if n == 3 {
      Row6();
    } else if n == 4 {
      Row8();
    } else if n == 5 {
      Row10();
    } else if n == 6 {
      Row12();
    } else {
      Row14();
    }
  }

  lemma OddRows(n: nat, k0: int, k1: int)
    requires n < 8 && k0 == K0s[2 * n + 1] && k1 == K1s[2 * n + 1]
    ensures RowFits(k0, k1, 8 + n, 1)
  {
    if n == 0 {
      Row1();
    } else if n == 1 {
      Row3();
    } else if n == 2 {
      Row5();
    } else if n == 3 {
      Row7();
    } else if n == 4 {
      Row9();
    } else if n == 5 {
      Row11();
    } else if n == 6 {
      Row13();
    } else {
      Row15();
    }
  }

  predicate IsRow(odd: nat, n: nat, k0: int, k1: int) {
    odd <= 1 && n < 8 && k0 == K0s[n * 2 + odd] && k1 == K1s[n * 2 + odd]
  }

  lemma RowOf(odd: nat, n: nat, k0: int, k1: int)
    requires IsRow(odd, n, k0, k1)
    ensures RowFits(k0, k1, 8 + n, 2 - odd)
  {
    if odd == 0 {
      EvenRows(n, k0, k1);
    } else {
      OddRows(n, k0, k1);
    }
  }

  /** A square times a factor, with a given sum: largest when the root is twice the factor. */
  lemma PeakBound(p: int, q: int)
    requires p >= 0 && q >= 0
    ensures 27 * (p * p * q) <= 4 * Cube(p + q)
  {
    var d := p - 2 * q;
    MulLe(0, 4 * p + q, d * d);
    PeakIdentity(p, q, p * p, p * q, q * q);
  }

  lemma PeakIdentity(p: int, q: int, pp: int, pq: int, qq: int)
    requires pp == p * p && pq == p * q && qq == q * q
    ensures 4 * Cube(p + q) - 27 * (p * p * q) == (4 * p + q) * ((p - 2 * q) * (p - 2 * q))
  {
    assert (p - 2 * q) * (p - 2 * q) == pp - 4 * pq + 4 * qq;
    assert (p + q) * (p + q) == pp + 2 * pq + qq;
    assert pq * p == pp * q && pq * q == qq * p;
    assert Cube(p + q) == (pp + 2 * pq + qq) * (p + q);
  }

  lemma BelowPeak(u: int, v: int, odd: nat, n: nat, k0: int, k1: int, t: int) returns (x: int)
    requires IsRow(odd, n, k0, k1) && 0 <= u && 0 <= v
    requires u == (k0 + 1) * 0x10_0000 - 1 - k1 * t && v == (8 + n) * 0x1000_0000 + 4095 + 4096 * t
    ensures x == u * u * v && (2 - odd) * x < TWO103
  {
    x := u * u * v;
    RowOf(odd, n, k0, k1);
    MulLe(0, k1, v);
    PeakBound(4096 * u, k1 * v);
    PeakSum(u, v, k0, k1, 8 + n, t);
    PeakProduct(u, v, k1);
    PeakScaled(x, 2 - odd, k1, Cube(Peak(k0, k1, 8 + n)));
  }

  lemma PeakSum(u: int, v: int, k0: int, k1: int, lead: int, t: int)
    requires u == (k0 + 1) * 0x10_0000 - 1 - k1 * t && v == lead * 0x1000_0000 + 4095 + 4096 * t
    ensures 4096 * u + k1 * v == Peak(k0, k1, lead)
  {
    assert k1 * v == k1 * (lead * 0x1000_0000 + 4095) + 4096 * (k1 * t);
  }

  lemma PeakProduct(u: int, v: int, k1: int)
    ensures 4096 * u * (4096 * u) * (k1 * v) == 4096 * 4096 * k1 * (u * u * v)
  {
    var uu := u * u;
    assert 4096 * u * (4096 * u) == 4096 * 4096 * uu;
    assert uu * (k1 * v) == k1 * (uu * v);
  }

  lemma PeakScaled(x: int, f: int, k1: int, cube: int)
    requires (f == 1 || f == 2) && 0 < k1 && 27 * (4096 * 4096 * k1 * x) <= 4 * cube
    requires f * (4 * cube) < 27 * (4096 * 4096 * k1) * TWO103
    ensures f * x < TWO103
  {
    var c := 27 * (4096 * 4096 * k1);
    assert c * x == 27 * (4096 * 4096 * k1 * x);
    assert c * (f * x) == f * (c * x);
    MulCancelLt(f * x, TWO103, c);
  }

  /** A cubic that is concave up to the end of a row lies above its chord. */
  lemma AboveChord(p0: int, p1: int, p2: int, p3: int, t: int)
    requires 0 <= t <= 65535 && p2 + p3 * (65535 + t) <= 0
    ensures 65535 * (p0 + p1 * t + p2 * (t * t) + p3 * (t * t * t))
         >= (65535 - t) * p0 + t * (p0 + p1 * 65535 + p2 * (65535 * 65535) + p3 * (65535 * 65535 * 65535))
  {
    var tt, m := t * t, t * (65535 - t);
    var ttt := tt * t;
    MulLe(0, t, 65535 - t);
    MulLe(p2 + p3 * (65535 + t), 0, m);
    ChordProduct(p2, p3, t, tt, ttt, m);
  }

  lemma ChordProduct(p2: int, p3: int, t: int, tt: int, ttt: int, m: int)
    requires tt == t * t && ttt == tt * t && m == t * (65535 - t)
    ensures (p2 + p3 * (65535 + t)) * m == 65535 * (p2 * t) - p2 * tt + 65535 * 65535 * (p3 * t) - p3 * ttt
  {
    assert m == 65535 * t - tt;
    assert (65535 + t) * m == 65535 * 65535 * t - ttt;
    assert p3 * (65535 + t) * m == p3 * ((65535 + t) * m);
  }

  /** A falling line squared times a rising one, as a cubic. */
  lemma Expansion(a: int, b: int, c: int, t: int, aa: int, ab: int, bb: int)
    requires aa == a * a && ab == a * b && bb == b * b
    ensures (a - b * t) * (a - b * t) * (c + 4096 * t)
         == aa * c + (4096 * aa - 2 * (ab * c)) * t + (bb * c - 8192 * ab) * (t * t) + 4096 * bb * (t * t * t)
  {
    SquareOfLine(a, b, t, aa, ab, bb);
    TimesStart(aa, ab, bb, c, t, t * t, t * t * t);
  }

  lemma SquareOfLine(a: int, b: int, t: int, aa: int, ab: int, bb: int)
    requires aa == a * a && ab == a * b && bb == b * b
    ensures (a - b * t) * (a - b * t) == aa - 2 * (ab * t) + bb * (t * t)
  {
    var bt := b * t;
    assert a * bt == ab * t && bt * bt == bb * (t * t);
  }

  lemma TimesStart(aa: int, ab: int, bb: int, c: int, t: int, tt: int, ttt: int)
    requires tt == t * t && ttt == tt * t
    ensures (aa - 2 * (ab * t) + bb * tt) * (c + 4096 * t)
         == aa * c + (4096 * aa - 2 * (ab * c)) * t + (bb * c - 8192 * ab) * tt + 4096 * bb * ttt
  {
    assert ab * t * c == ab * c * t && ab * t * t == ab * tt;
    assert bb * tt * c == bb * c * tt && bb * tt * t == bb * ttt;
  }

  lemma AboveEnds(odd: nat, n: nat, k0: int, k1: int, t: int) returns (x: int)
    requires IsRow(odd, n, k0, k1) && 0 <= t <= 65535
    ensures x == Line(k0, k1, t) * Line(k0, k1, t) * Start(8 + n, t) && (2 - odd) * x >= LOWEST
  {
    var a, c := k0 * 0x10_0000, (8 + n) * 0x1000_0000;
    var aa, ab, bb := a * a, a * k1, k1 * k1;
    var p1, p2, p3 := 4096 * aa - 2 * (ab * c), bb * c - 8192 * ab, 4096 * bb;
    var x0 := LineAt(k0, k1, n, 0, a, c, aa, ab, bb, p1, p2);
    var x1 := LineAt(k0, k1, n, 65535, a, c, aa, ab, bb, p1, p2);
    x := LineAt(k0, k1, n, t, a, c, aa, ab, bb, p1, p2);
    assert k1 > 0 && k1 * c + 2 * 65535 * k1 * 4096 <= 2 * a * 4096 && (2 - odd) * x0 >= LOWEST && (2 - odd) * x1 >= LOWEST by {
      RowOf(odd, n, k0, k1);
    }
    Bends(a, k1, c, t, ab, bb);
    AboveChord(aa * c, p1, p2, p3, t);
    BetweenEnds(x, x0, x1, 2 - odd, t);
  }

  /** The square of the line times the start of a significand, as a cubic. */
  lemma LineAt(k0: int, k1: int, n: int, t: int, a: int, c: int, aa: int, ab: int, bb: int, p1: int, p2: int) returns (x: int)
    requires a == k0 * 0x10_0000 && c == (8 + n) * 0x1000_0000 && aa == a * a && ab == a * k1 && bb == k1 * k1
    requires p1 == 4096 * aa - 2 * (ab * c) && p2 == bb * c - 8192 * ab
    ensures x == Line(k0, k1, t) * Line(k0, k1, t) * Start(8 + n, t)
    ensures x == aa * c + p1 * t + p2 * (t * t) + 4096 * bb * (t * t * t)
  {
    x := Line(k0, k1, t) * Line(k0, k1, t) * Start(8 + n, t);
    Expansion(a, k1, c, t, aa, ab, bb);
  }

  lemma Bends(a: int, b: int, c: int, t: int, ab: int, bb: int)
    requires ab == a * b && bb == b * b && 0 < b && t <= 65535
    requires b * c + 2 * 65535 * b * 4096 <= 2 * a * 4096
    ensures bb * c - 8192 * ab + 4096 * bb * (65535 + t) <= 0
  {
    MulLe(b * c + 2 * 65535 * b * 4096, 2 * a * 4096, b);
    assert (b * c + 2 * 65535 * b * 4096) * b == bb * c + 2 * 65535 * 4096 * bb;
    assert 2 * a * 4096 * b == 8192 * ab;
    MulLe(t, 65535, bb);
  }

  lemma BetweenEnds(x: int, x0: int, x1: int, f: int, t: int)
    requires (f == 1 || f == 2) && 0 <= t <= 65535 && 65535 * x >= (65535 - t) * x0 + t * x1
    requires f * x0 >= LOWEST && f * x1 >= LOWEST
    ensures f * x >= LOWEST
  {
    MulLe(LOWEST, f * x0, 65535 - t);
    MulLe(LOWEST, f * x1, t);
  }

  lemma EntryIs(odd: nat, a: u32, n: nat, t: nat, k0: int, k1: int)
    requires odd <= 1 && n == a / 0x1000_0000 % 8 && t == a / 0x1000 % 0x1_0000
    requires k0 == K0s[n * 2 + odd] && k1 == K1s[n * 2 + odd]
    ensures TableEntry(odd, a) == (k0 - k1 * t / 0x10_0000) % 0x1_0000
  {
  }

  /** The entry lies on the line or less than a unit above it. */
  lemma EntryOnLine(k0: int, k1: int, t: nat, r0: int)
    requires r0 == (k0 - k1 * t / 0x10_0000) % 0x1_0000
    requires 0 < k1 && Line(k0, k1, 65535) > 0 && k0 < 0x1_0000 && t <= 65535
    ensures 0 < Line(k0, k1, t) <= 0x10_0000 * r0 <= Line(k0, k1, t) + 0xF_FFFF
  {
    MulLe(t, 65535, k1);
    MulLe(0, t, k1);
    EntryRounds(k0, k1 * t, r0);
  }

  lemma EntryRounds(k0: int, kt: int, r0: int)
    requires r0 == (k0 - kt / 0x10_0000) % 0x1_0000 && 0 <= kt < k0 * 0x10_0000 && k0 < 0x1_0000
    ensures k0 * 0x10_0000 - kt <= 0x10_0000 * r0 <= k0 * 0x10_0000 - kt + 0xF_FFFF
  {
    var q := kt / 0x10_0000;
    assert 0 <= k0 - q < 0x1_0000;
    assert r0 == k0 - q;
  }

  lemma Parts(a: u32, lead: nat, t: nat)
    requires lead == a / 0x1000_0000 && t == a / 0x1000 % 0x1_0000
    ensures Start(lead, t) <= a <= Start(lead, t) + 4095 && t <= 65535
  {
  }

  lemma SquareTimesLe(x: int, y: int, v: int, w: int)
    requires 0 <= x <= y && 0 <= v <= w
    ensures x * x * v <= y * y * w
  {
    MulLe(x, y, x);
    MulLe(x, y, y);
    MulLe(x * x, y * y, v);
    MulLe(v, w, y * y);
  }

  /** The square of the entry, times the significand, is just below one. */
  lemma FirstValue(odd: nat, a: u32, r0: nat)
    requires odd <= 1 && a >= 0x8000_0000 && r0 == TableEntry(odd, a)
    ensures r0 > 0 && LOWEST <= (2 - odd) * (r0 * r0 * a) * 0x100_0000_0000 < TWO103
  {
    var n, t := a / 0x1000_0000 % 8, a / 0x1000 % 0x1_0000;
    var k0, k1 := K0s[n * 2 + odd], K1s[n * 2 + odd];
    EntryIs(odd, a, n, t, k0, k1);
    Parts(a, 8 + n, t);
    FirstBounds(odd, n, k0, k1, t, r0, a);
  }

  lemma FirstBounds(odd: nat, n: nat, k0: int, k1: int, t: nat, r0: int, a: int)
    requires IsRow(odd, n, k0, k1) && t <= 65535 && r0 == (k0 - k1 * t / 0x10_0000) % 0x1_0000
    requires Start(8 + n, t) <= a <= Start(8 + n, t) + 4095
    ensures r0 > 0 && LOWEST <= (2 - odd) * (r0 * r0 * a) * 0x100_0000_0000 < TWO103
  {
    RowOf(odd, n, k0, k1);
    EntryOnLine(k0, k1, t, r0);
    var low, high, root := Line(k0, k1, t), Line(k0, k1, t) + 0xF_FFFF, 0x10_0000 * r0;
    var s, v := Start(8 + n, t), Start(8 + n, t) + 4095;
    var x := root * root * a;
    var above := AboveEnds(odd, n, k0, k1, t);
    var below := BelowPeak(high, v, odd, n, k0, k1, t);
    SquareTimesLe(low, root, s, a);
    SquareTimesLe(root, high, a, v);
    Between(above, x, below, 2 - odd);
    Unscaled(r0, a, 2 - odd, x);
  }

  lemma Between(low: int, x: int, high: int, f: int)
    requires (f == 1 || f == 2) && low <= x <= high && f * low >= LOWEST && f * high < TWO103
    ensures LOWEST <= x * f < TWO103
  {
  }

  lemma Unscaled(r0: int, a: int, f: int, x: int)
    requires x == 0x10_0000 * r0 * (0x10_0000 * r0) * a
    ensures f * (r0 * r0 * a) * 0x100_0000_0000 == x * f
  {
    var rr := r0 * r0;
    assert 0x10_0000 * r0 * (0x10_0000 * r0) == 0x100_0000_0000 * rr;
    assert x == 0x100_0000_0000 * (rr * a);
  }

  // ----- the refinement, in units of 2^-40

  const U: int := 0x100_0000_0000

  /** How far the square of the entry times the significand can be below one. */
  const MOST: int := 0xB680_0000

  /** The series of the reciprocal root of 1 - s / u, to the third power, scaled by 16 u^3. */
  function Series(u: int, s: int): int {
    Polynomial([16 * (u * u * u), 8 * (u * u), 6 * u, 5], s)
  }

  /** A polynomial, its lowest coefficient first. */
  function Polynomial(coefficients: seq<int>, x: int): int {
    if coefficients == [] then 0 else coefficients[0] + x * Polynomial(coefficients[1..], x)
  }

  lemma SeriesIs(u: int, s: int)
    ensures Series(u, s) == 16 * (u * u * u) + 8 * (u * u * s) + 6 * (u * (s * s)) + 5 * (s * (s * s))
  {
    var c := [16 * (u * u * u), 8 * (u * u), 6 * u, 5];
    assert c[1..][1..] == c[2..] && c[2..][1..] == c[3..] && c[3..][1..] == [];
    assert Polynomial(c[3..], s) == 5;
    assert Polynomial(c[2..], s) == 6 * u + s * 5;
    assert Polynomial(c[1..], s) == 8 * (u * u) + s * (6 * u + s * 5);
    Horner(u * u * u, u * u, u, s);
  }

  lemma Horner(u3: int, u2: int, u: int, s: int)
    ensures 16 * u3 + s * (8 * u2 + s * (6 * u + s * 5)) == 16 * u3 + 8 * (u2 * s) + 6 * (u * (s * s)) + 5 * (s * (s * s))
  {
    var ss := s * s;
    assert s * (s * (6 * u + s * 5)) == ss * (6 * u + s * 5);
  }

  /** What the refinement computes, one word after the other, with u for 2^40; k is the entry shifted left
      by 16 and c the last correction. */
  ghost predicate Refined(u: int, k: int, s: int, r1: int, b: int, sq: int, c: int) {
    && 0x1_0000 <= k <= TWO32 && 0 <= s && 359 * s <= u && s < TWO32
    && 2 * (u * r1) <= 2 * (u * k) + k * s < 2 * (u * r1) + 2 * u
    && 5 * r1 - 2 * k - 11 <= 8 * b <= 5 * r1 - 2 * k
    && TWO32 * sq <= s * s < TWO32 * sq + TWO32
    && 0x1_0000_0000_0000 * c <= b * sq < 0x1_0000_0000_0000 * c + 0x1_0000_0000_0000
  }

  lemma WordsInRange(u: int, k: int, s: int, r1: int, b: int, sq: int, c: int)
    requires Refined(u, k, s, r1, b, sq, c) && 0 < u
    ensures k <= r1 && 718 * r1 <= 719 * k && 0 <= b < TWO31 && 0 <= sq
  {
    Falls(u, s, k);
    Falls(u, s, s);
    FirstInRange(u, k, s * k, r1);
  }

  lemma FirstInRange(u: int, k: int, ks: int, r1: int)
    requires 0 < u && 0 < k && 0 <= ks && 359 * ks <= u * k && 2 * (u * r1) <= 2 * (u * k) + ks < 2 * (u * r1) + 2 * u
    ensures k <= r1 && 718 * r1 <= 719 * k
  {
    MulCancelLt(k - 1, r1, u);
    MulCancelLt(718 * r1, 719 * k + 1, u);
  }

  lemma TimesSeries(u: int, k: int, s: int, ks: int, ss: int) returns (whole: int)
    requires ks == k * s && ss == s * s
    ensures whole == k * Series(u, s) && whole == 16 * (u * u * u * k) + 8 * (u * u * ks) + 6 * (u * (k * ss)) + 5 * (ks * ss)
  {
    whole := k * Series(u, s);
    SeriesIs(u, s);
    var p, uu, sss := u * u * u, u * u, s * ss;
    assert k * (uu * s) == uu * ks && k * (u * ss) == u * (k * ss) && k * sss == ks * ss;
    assert k * (16 * p + 8 * (uu * s) + 6 * (u * ss) + 5 * sss)
        == 16 * (p * k) + 8 * (k * (uu * s)) + 6 * (k * (u * ss)) + 5 * (k * sss);
  }

  /** The last correction, against the product it is cut from. */
  lemma LastTerm(b: int, sq: int, c: int, ss: int, bs: int, bsq: int, uu: int, uuc: int)
    requires 0 <= b && TWO32 * sq <= ss < TWO32 * sq + TWO32 && bs == b * ss && bsq == b * sq
    requires 0x1_0000_0000_0000 * c <= bsq < 0x1_0000_0000_0000 * c + 0x1_0000_0000_0000
    requires uu == TWO80 && uuc == uu * c
    ensures uuc <= bs < uuc + uu + TWO32 * b + TWO32
  {
    MulLe(TWO32 * sq, ss, b);
    MulLe(ss, TWO32 * sq + TWO32, b);
    BothSides(b, bsq, sq);
    Eighty(c, uu, uuc);
  }

  const TWO80: int := 0x1_0000_0000_0000_0000_0000

  lemma BothSides(b: int, bsq: int, sq: int)
    requires bsq == b * sq
    ensures TWO32 * sq * b == TWO32 * bsq && (TWO32 * sq + TWO32) * b == TWO32 * bsq + TWO32 * b
  {
  }

  lemma Eighty(c: int, uu: int, uuc: int)
    requires uu == TWO80 && uuc == uu * c
    ensures uuc == TWO80 * c
  {
  }

  /** The middle word, times u. */
  lemma MiddleTerm(u: int, k: int, ks: int, r1: int, b: int)
    requires 0 <= u && 2 * (u * r1) <= 2 * (u * k) + ks < 2 * (u * r1) + 2 * u
    requires 5 * r1 - 2 * k - 11 <= 8 * b <= 5 * r1 - 2 * k
    ensures 6 * (u * k) + 5 * ks - 32 * u <= 16 * (u * b) <= 6 * (u * k) + 5 * ks
  {
    MulLe(8 * b, 5 * r1 - 2 * k, u);
    MulLe(5 * r1 - 2 * k - 11, 8 * b, u);
    TimesWords(u, k, r1, b);
    MiddleSum(u, u * k, ks, u * r1, u * b);
  }

  lemma TimesWords(u: int, k: int, r1: int, b: int)
    ensures (5 * r1 - 2 * k) * u == 5 * (u * r1) - 2 * (u * k) && 8 * b * u == 8 * (u * b)
    ensures (5 * r1 - 2 * k - 11) * u == 5 * (u * r1) - 2 * (u * k) - 11 * u
  {
  }

  lemma MiddleSum(u: int, uk: int, ks: int, ur: int, ub: int)
    requires 0 <= u && 2 * ur <= 2 * uk + ks < 2 * ur + 2 * u && 5 * ur - 2 * uk - 11 * u <= 8 * ub <= 5 * ur - 2 * uk
    ensures 6 * uk + 5 * ks - 32 * u <= 16 * ub <= 6 * uk + 5 * ks
  {
  }

  /** Times the square of s. */
  lemma MiddleTimes(u: int, k: int, ks: int, b: int, ss: int, bs: int)
    requires 0 <= ss && bs == b * ss
    requires 6 * (u * k) + 5 * ks - 32 * u <= 16 * (u * b) <= 6 * (u * k) + 5 * ks
    ensures 6 * (u * (k * ss)) + 5 * (ks * ss) - 32 * (u * ss) <= 16 * (u * bs) <= 6 * (u * (k * ss)) + 5 * (ks * ss)
  {
    var uk, ub := u * k, u * b;
    MulLe(16 * ub, 6 * uk + 5 * ks, ss);
    MulLe(6 * uk + 5 * ks - 32 * u, 16 * ub, ss);
    assert ub * ss == u * bs && uk * ss == u * (k * ss);
    assert (6 * uk + 5 * ks) * ss == 6 * (uk * ss) + 5 * (ks * ss);
    assert (6 * uk + 5 * ks - 32 * u) * ss == (6 * uk + 5 * ks) * ss - 32 * (u * ss);
  }

  /** The first word, times the cube of u. */
  lemma FirstTerm(u: int, k: int, ks: int, r1: int)
    requires 0 <= u && 2 * (u * r1) <= 2 * (u * k) + ks < 2 * (u * r1) + 2 * u
    ensures 16 * (u * u * u * k) + 8 * (u * u * ks) - 16 * (u * u * u)
         <= 16 * (u * u * u * r1) <= 16 * (u * u * u * k) + 8 * (u * u * ks)
  {
    var uu, ur, uk := u * u, u * r1, u * k;
    MulLe(0, u, u);
    MulLe(2 * ur, 2 * uk + ks, uu);
    MulLe(2 * uk + ks, 2 * ur + 2 * u, uu);
    TimesSquare(uu, ur, uk, ks, u);
    CubeTimes(u, uu, r1);
    CubeTimes(u, uu, k);
  }

  lemma TimesSquare(uu: int, ur: int, uk: int, ks: int, u: int)
    ensures 2 * ur * uu == 2 * (uu * ur) && (2 * uk + ks) * uu == 2 * (uu * uk) + uu * ks
    ensures (2 * ur + 2 * u) * uu == 2 * (uu * ur) + 2 * (uu * u)
  {
  }

  lemma CubeTimes(u: int, uu: int, k: int)
    ensures uu * (u * k) == uu * u * k
  {
    MulAssoc(uu, u, k);
  }

  /** The refined value is at most the series. */
  lemma Upward(u: int, k: int, s: int, r1: int, b: int, sq: int, c: int) returns (whole: int)
    requires Refined(u, k, s, r1, b, sq, c) && 0 < u && u * u == TWO80
    ensures whole == k * Series(u, s) && 16 * (u * u * u * (r1 + c)) <= whole
  {
    whole := k * Series(u, s);
    var ks, ss, bs, uuc := k * s, s * s, b * (s * s), u * u * c;
    WordsInRange(u, k, s, r1, b, sq, c);
    LastTerm(b, sq, c, ss, bs, b * sq, u * u, uuc);
    MiddleTerm(u, k, ks, r1, b);
    MulLe(0, s, s);
    MiddleTimes(u, k, ks, b, ss, bs);
    FirstTerm(u, k, ks, r1);
    whole := TimesSeries(u, k, s, ks, ss);
    MulLe(uuc, bs, u);
    CubeSum(u, r1, c, uuc);
  }

  lemma CubeSum(u: int, r1: int, c: int, uuc: int)
    requires uuc == u * u * c
    ensures u * u * u * (r1 + c) == u * u * u * r1 + uuc * u
  {
    var uu := u * u;
    assert uu * u * c == uu * c * u;
  }

  /** It is less than 2 and a 64th below the series. */
  lemma Downward(u: int, k: int, s: int, r1: int, b: int, sq: int, c: int) returns (whole: int)
    requires Refined(u, k, s, r1, b, sq, c) && 0 < u && u * u == TWO80
    ensures whole == k * Series(u, s) && 64 * (u * u * u * (r1 + c)) + 129 * (u * u * u) >= 4 * whole
  {
    whole := k * Series(u, s);
    var ks, ss, bs, uuc := k * s, s * s, b * (s * s), u * u * c;
    WordsInRange(u, k, s, r1, b, sq, c);
    LastTerm(b, sq, c, ss, bs, b * sq, u * u, uuc);
    MiddleTerm(u, k, ks, r1, b);
    MulLe(0, s, s);
    MiddleTimes(u, k, ks, b, ss, bs);
    FirstTerm(u, k, ks, r1);
    whole := TimesSeries(u, k, s, ks, ss);
    CubeSum(u, r1, c, uuc);
    LostProduct(u, b, bs, uuc);
    SmallSquare(s, ss);
    MulLe(ss, TWO64, u);
    MulLe(b, TWO31, u);
    CubeIs(u, u * u, u * u * u);
    Losses(u, u * u * u, u * u * u * r1, uuc * u, u * bs, u * b, u * ss,
           16 * (u * u * u * k) + 8 * (u * u * ks), 6 * (u * (k * ss)) + 5 * (ks * ss), whole);
  }

  lemma SmallSquare(s: int, ss: int)
    requires 0 <= s < TWO32 && ss == s * s
    ensures ss <= TWO64
  {
    MulLe(s, TWO32, s);
    MulLe(s, TWO32, TWO32);
  }

  lemma LostProduct(u: int, b: int, bs: int, uuc: int)
    requires 0 <= u && bs < uuc + u * u + TWO32 * b + TWO32
    ensures u * bs <= uuc * u + u * u * u + TWO32 * (u * b) + TWO32 * u
  {
    var uu := u * u;
    MulLe(bs, uuc + uu + TWO32 * b + TWO32, u);
    assert (uuc + uu + TWO32 * b + TWO32) * u == uuc * u + uu * u + TWO32 * (u * b) + TWO32 * u;
  }

  lemma CubeIs(u: int, uu: int, p: int)
    requires uu == TWO80 && uu == u * u && p == uu * u
    ensures p == TWO80 * u
  {
  }

  lemma Losses(u: int, p: int, pr: int, uc: int, ubs: int, ub: int, uss: int, first: int, rest: int, whole: int)
    requires 0 < u && p == TWO80 * u && first - 16 * p <= 16 * pr && rest - 32 * uss <= 16 * ubs
    requires ubs <= uc + p + TWO32 * ub + TWO32 * u && ub <= TWO31 * u && uss <= TWO64 * u && whole == first + rest
    ensures 64 * (pr + uc) + 129 * p >= 4 * whole
  {
  }

  // ----- the series against the root

  /** The products of degree 6 in u and s, by the power of s. */
  datatype Six = Six(m0: int, m1: int, m2: int, m3: int, m4: int, m5: int, m6: int)

  ghost predicate AreSix(u: int, s: int, m: Six) {
    var p, q, x, y := u * u * u, u * u * s, u * (s * s), s * (s * s);
    m.m0 == p * p && m.m1 == p * q && m.m2 == p * x && m.m3 == p * y && m.m4 == q * y && m.m5 == x * y && m.m6 == y * y
  }

  /** The square of the series. */
  lemma SquareOfTerms(p: int, q: int, x: int, y: int)
    ensures (16 * p + 8 * q + 6 * x + 5 * y) * (16 * p + 8 * q + 6 * x + 5 * y)
         == 256 * (p * p) + 256 * (p * q) + 64 * (q * q) + 192 * (p * x) + 160 * (p * y) + 96 * (q * x)
            + 36 * (x * x) + 80 * (q * y) + 60 * (x * y) + 25 * (y * y)
  {
    var n := 16 * p + 8 * q + 6 * x + 5 * y;
    assert n * p == 16 * (p * p) + 8 * (p * q) + 6 * (p * x) + 5 * (p * y);
    assert n * q == 16 * (p * q) + 8 * (q * q) + 6 * (q * x) + 5 * (q * y);
    assert n * x == 16 * (p * x) + 8 * (q * x) + 6 * (x * x) + 5 * (x * y);
    assert n * y == 16 * (p * y) + 8 * (q * y) + 6 * (x * y) + 5 * (y * y);
  }

  lemma EqualTerms(u: int, s: int, p: int, q: int, x: int, y: int)
    requires p == u * u * u && q == u * u * s && x == u * (s * s) && y == s * (s * s)
    ensures q * q == p * x && q * x == p * y && x * x == q * y
  {
    var uu, us, ss := u * u, u * s, s * s;
    assert p == uu * u && q == uu * s && q == u * us && x == us * s && y == ss * s;
    assert q * q == uu * s * (u * us) && p * x == uu * u * (us * s);
    assert q * x == uu * s * (us * s) && p * y == uu * u * (ss * s) && us * s == u * ss;
    assert x * x == u * ss * (us * s) && q * y == u * us * (ss * s);
  }

  lemma SquareOfSeries(u: int, s: int, n: int, m: Six)
    requires AreSix(u, s, m) && n == 16 * (u * u * u) + 8 * (u * u * s) + 6 * (u * (s * s)) + 5 * (s * (s * s))
    ensures n * n == 256 * m.m0 + 256 * m.m1 + 256 * m.m2 + 256 * m.m3 + 116 * m.m4 + 60 * m.m5 + 25 * m.m6
  {
    var p, q, x, y := u * u * u, u * u * s, u * (s * s), s * (s * s);
    SquareOfTerms(p, q, x, y);
    EqualTerms(u, s, p, q, x, y);
  }

  lemma NextTerm(u: int, s: int)
    ensures s * (u * u * u) == u * (u * u * s) && s * (u * u * s) == u * (u * (s * s)) && s * (u * (s * s)) == u * (s * (s * s))
  {
    var uu, us, ss := u * u, u * s, s * s;
    assert s * (uu * u) == u * (uu * s) && uu * s == u * us && s * (u * us) == u * (s * us) && s * us == u * ss;
  }

  lemma Swap(s: int, a: int, b: int, u: int, c: int)
    requires s * a == u * c
    ensures s * (a * b) == u * (c * b)
  {
    assert s * (a * b) == s * a * b && u * (c * b) == u * c * b;
  }

  /** Multiplying by s and by u gives the same products, one place apart. */
  lemma NextDegree(u: int, s: int, m: Six)
    requires AreSix(u, s, m)
    ensures s * m.m0 == u * m.m1 && s * m.m1 == u * m.m2 && s * m.m2 == u * m.m3
    ensures s * m.m3 == u * m.m4 && s * m.m4 == u * m.m5 && s * m.m5 == u * m.m6
  {
    var p, q, x, y := u * u * u, u * u * s, u * (s * s), s * (s * s);
    NextTerm(u, s);
    Swap(s, p, p, u, q);
    Swap(s, q, p, u, x);
    Swap(s, x, p, u, y);
    Swap(s, p, y, u, q);
    Swap(s, q, y, u, x);
    Swap(s, x, y, u, y);
  }

  /** One less sigma, times the square of the series, falls short of one by this much, in units of 256 u^7. */
  function Shortfall(u: int, s: int, m: Six): int {
    140 * (u * m.m4) + 56 * (u * m.m5) + 35 * (u * m.m6) + 25 * (s * m.m6)
  }

  lemma FallsShort(u: int, s: int, nn: int, m: Six)
    requires AreSix(u, s, m)
    requires nn == 256 * m.m0 + 256 * m.m1 + 256 * m.m2 + 256 * m.m3 + 116 * m.m4 + 60 * m.m5 + 25 * m.m6
    ensures (u - s) * nn == 256 * (u * m.m0) - Shortfall(u, s, m)
  {
    NextDegree(u, s, m);
    TimesEach(u, m);
    TimesEach(s, m);
    assert (u - s) * nn == u * nn - s * nn;
  }

  lemma TimesEach(z: int, m: Six)
    ensures z * (256 * m.m0 + 256 * m.m1 + 256 * m.m2 + 256 * m.m3 + 116 * m.m4 + 60 * m.m5 + 25 * m.m6)
         == 256 * (z * m.m0) + 256 * (z * m.m1) + 256 * (z * m.m2) + 256 * (z * m.m3)
            + 116 * (z * m.m4) + 60 * (z * m.m5) + 25 * (z * m.m6)
  {
  }

  /** With s a small part of u the products fall quickly. */
  lemma ProductsFall(u: int, s: int, m: Six)
    requires 0 <= s && 359 * s <= u && AreSix(u, s, m)
    ensures 0 <= m.m0 && 0 <= m.m1 && 0 <= m.m2 && 0 <= m.m3 && 0 <= m.m4 && 0 <= m.m5 && 0 <= m.m6
    ensures 359 * m.m1 <= m.m0 && 359 * m.m2 <= m.m1 && 359 * m.m3 <= m.m2
    ensures 359 * m.m4 <= m.m3 && 359 * m.m5 <= m.m4 && 359 * m.m6 <= m.m5
  {
    TermsFall(u, s);
    SixFall(u * u * u, u * u * s, u * (s * s), s * (s * s));
  }

  lemma TermsFall(u: int, s: int)
    requires 0 <= s && 359 * s <= u
    ensures 0 <= u * u * u && 0 <= u * u * s && 0 <= u * (s * s) && 0 <= s * (s * s)
    ensures 359 * (u * u * s) <= u * u * u && 359 * (u * (s * s)) <= u * u * s && 359 * (s * (s * s)) <= u * (s * s)
  {
    var uu, us, ss := u * u, u * s, s * s;
    Falls(u, s, u);
    Falls(u, s, s);
    Falls(u, s, uu);
    Falls(u, s, us);
    Falls(u, s, ss);
    assert u * us == uu * s && s * us == u * ss;
  }

  lemma Falls(u: int, s: int, z: int)
    requires 0 <= s && 359 * s <= u && 0 <= z
    ensures 0 <= s * z && 359 * (s * z) <= u * z
  {
    MulLe(0, s, z);
    MulLe(359 * s, u, z);
  }

  lemma SixFall(p: int, q: int, x: int, y: int)
    requires 0 <= p && 0 <= q && 0 <= x && 0 <= y && 359 * q <= p && 359 * x <= q && 359 * y <= x
    ensures 0 <= p * p && 359 * (p * q) <= p * p && 359 * (p * x) <= p * q && 359 * (p * y) <= p * x
    ensures 359 * (q * y) <= p * y && 359 * (x * y) <= q * y && 359 * (y * y) <= x * y
    ensures 0 <= p * q && 0 <= p * x && 0 <= p * y && 0 <= q * y && 0 <= x * y && 0 <= y * y
  {
    Falls(p, q, p);
    Falls(q, x, p);
    Falls(x, y, p);
    Falls(p, q, y);
    Falls(q, x, y);
    Falls(x, y, y);
    MulLe(0, p, p);
    MulLe(0, y, y);
  }

  /** The series, one less sigma times its square, and the shortfall, for some product of degree 7. */
  lemma SeriesFallsShort(u: int, s: int, n: int) returns (m0: int, short: int)
    requires 0 <= s && 359 * s <= u && n == Series(u, s)
    ensures m0 == u * u * u * (u * u * u) && (u - s) * (n * n) == 256 * (u * m0) - short
    ensures 0 <= short && 16610312161 * short <= 141 * (u * m0) && n * n <= 258 * m0
    ensures 16 * (u * u * u) <= n
  {
    var p, q, x, y := u * u * u, u * u * s, u * (s * s), s * (s * s);
    var m := Six(p * p, p * q, p * x, p * y, q * y, x * y, y * y);
    m0, short := p * p, Shortfall(u, s, m);
    SeriesIs(u, s);
    SquareOfSeries(u, s, n, m);
    FallsShort(u, s, n * n, m);
    ProductsFall(u, s, m);
    ShortfallBound(u, s, m);
    MulLe(0, u, u);
    MulLe(0, u * u, s);
    MulLe(0, s, s);
    MulLe(0, s * s, u);
    MulLe(0, s * s, s);
  }

  lemma ShortfallBound(u: int, s: int, m: Six)
    requires 0 <= s && 359 * s <= u && 0 <= m.m4 && 0 <= m.m5 && 0 <= m.m6
    requires 359 * m.m1 <= m.m0 && 359 * m.m2 <= m.m1 && 359 * m.m3 <= m.m2
    requires 359 * m.m4 <= m.m3 && 359 * m.m5 <= m.m4 && 359 * m.m6 <= m.m5
    ensures 0 <= Shortfall(u, s, m) && 16610312161 * Shortfall(u, s, m) <= 141 * (u * m.m0)
  {
    Falls(u, s, m.m6);
    MulLe(0, m.m4, u);
    MulLe(0, m.m5, u);
    MulLe(0, m.m6, u);
    TimesAll(u, m);
    AddUp(u * m.m0, u * m.m4, u * m.m5, u * m.m6, s * m.m6);
  }

  lemma TimesAll(u: int, m: Six)
    requires 0 <= u && 16610312161 * m.m4 <= m.m0 && 359 * m.m5 <= m.m4 && 359 * m.m6 <= m.m5
    ensures 16610312161 * (u * m.m4) <= u * m.m0 && 359 * (u * m.m5) <= u * m.m4 && 359 * (u * m.m6) <= u * m.m5
  {
    MulLe(16610312161 * m.m4, m.m0, u);
    MulLe(359 * m.m5, m.m4, u);
    MulLe(359 * m.m6, m.m5, u);
  }

  lemma AddUp(k0: int, k4: int, k5: int, k6: int, k7: int)
    requires 0 <= k4 && 0 <= k5 && 0 <= k6 && 0 <= k7 && 16610312161 * k4 <= k0 && 359 * k5 <= k4 && 359 * k6 <= k5 && 359 * k7 <= k6
    ensures 0 <= 140 * k4 + 56 * k5 + 35 * k6 + 25 * k7 && 16610312161 * (140 * k4 + 56 * k5 + 35 * k6 + 25 * k7) <= 141 * k0
  {
  }

  /** The series stays below the reciprocal root, */
  lemma SeriesBelow(u: int, s: int, n: int) returns (m0: int)
    requires 0 <= s && 359 * s <= u && n == Series(u, s)
    ensures m0 == u * u * u * (u * u * u) && (u - s) * (n * n) <= 256 * (u * m0)
  {
    var short;
    m0, short := SeriesFallsShort(u, s, n);
  }

  /** and no more than 27 / 320 of a unit of 2^-32 below; w is u^3 in units of 2^32. */
  lemma SeriesAbove(u: int, s: int, n: int, w: int, v: int) returns (m0: int)
    requires 0 <= s && 359 * s <= u && U <= u && n == Series(u, s) && u * u * u == TWO32 * w && v == 20 * n + 27 * w
    ensures m0 == u * u * u * (u * u * u) && (u - s - 1) * (v * v) >= 102400 * (u * m0)
  {
    var short;
    m0, short := SeriesFallsShort(u, s, n);
    var t, nn, wn := u - s - 1, n * n, w * n;
    SquareOfSum(n, w, v);
    MulLe(400 * nn + 1080 * wn, v * v, t);
    TimesSum(t, u - s, nn, wn);
    Gain(u, n, w, t, wn, m0);
    MulLe(U, u, m0);
    Enough(u * m0, m0, short, (u - s) * nn, nn, t * wn, t * (v * v));
  }

  lemma TimesSum(t: int, t1: int, nn: int, wn: int)
    requires t == t1 - 1
    ensures (400 * nn + 1080 * wn) * t == 400 * (t1 * nn - nn) + 1080 * (t * wn)
  {
    assert nn * t == t1 * nn - nn;
  }

  lemma Enough(k: int, m0: int, short: int, tnn: int, nn: int, twn: int, tvv: int)
    requires 0 <= m0 && U * m0 <= k && 16610312161 * short <= 141 * k && nn <= 258 * m0 && tnn == 256 * k - short
    requires 100 * TWO32 * twn >= 1584 * k && tvv >= 400 * (tnn - nn) + 1080 * twn
    ensures tvv >= 102400 * k
  {
  }

  lemma SquareOfSum(n: int, w: int, v: int)
    requires v == 20 * n + 27 * w
    ensures v * v >= 400 * (n * n) + 1080 * (w * n)
  {
    assert v * v == 400 * (n * n) + 1080 * (w * n) + 729 * (w * w);
    MulLe(0, w * w, 1);
  }

  /** What the last 27 / 320 of a unit contribute. */
  lemma Gain(u: int, n: int, w: int, t: int, wn: int, m0: int)
    requires 0 < u && u * u * u == TWO32 * w && 16 * (u * u * u) <= n && wn == w * n && 100 * t >= 99 * u
    requires m0 == u * u * u * (u * u * u)
    ensures 0 <= m0 && 100 * TWO32 * (t * wn) >= 1584 * (u * m0)
  {
    var p := u * u * u;
    MulLe(0, u, u);
    MulLe(0, u * u, u);
    MulLe(0, p, p);
    MulLe(16 * p, n, p);
    assert TWO32 * wn == p * n;
    MulLe(0, wn, 1);
    MulLe(99 * u, 100 * t, wn);
    assert 99 * u * (TWO32 * wn) == TWO32 * (99 * u * wn);
    MulLe(16 * m0, TWO32 * wn, u);
  }

  // ----- the value of the table

  /** Whatever e, g and u: not above, in units of e * u / 2. */
  lemma NotAbove(u: int, k: int, s: int, r: int, a: int, eg: int, ka: int)
    requires 0 <= s && 359 * s <= u && 0 < u && 0 <= r && 0 <= k && 0 < a && 0 < eg
    requires 16 * (u * u * u * r) <= k * Series(u, s) && ka == k * k * a && 2 * ka < eg * (u - s)
    ensures 2 * (r * r * a) < eg * u
  {
    var n, p := Series(u, s), u * u * u;
    var nn, rra := n * n, r * r * a;
    var m0, short := SeriesFallsShort(u, s, n);
    m0 := SeriesBelow(u, s, n);
    CubePositive(u, p, m0);
    MulLe(0, p, r);
    SquareTimesLe(16 * (p * r), k * n, a, a);
    MulLe(1, n, n);
    MulLt(2 * ka, eg * (u - s), nn);
    SquareOut(k, n, a);
    SquareOf(16, p, r, m0, a);
    OneLess(eg, u - s, nn, ka, k, n, a);
    MulLe((u - s) * nn, 256 * (u * m0), eg);
    CancelBelow(rra, m0, u, eg);
  }

  lemma CubePositive(u: int, p: int, m0: int)
    requires 0 < u && p == u * u * u && m0 == p * p
    ensures p > 0 && m0 > 0
  {
    MulLe(1, u, u);
    MulLe(1, u * u, u);
    MulLe(1, p, p);
  }

  lemma SquareOf(h: int, p: int, r: int, m0: int, a: int)
    requires m0 == p * p
    ensures h * (p * r) * (h * (p * r)) * a == h * h * (m0 * (r * r * a))
  {
    SquareOut(h, p * r, a);
    SquareOut(p, r, a);
  }

  lemma OneLess(eg: int, t: int, nn: int, ka: int, k: int, n: int, a: int)
    requires nn == n * n && ka == k * k * a
    ensures eg * t * nn == t * nn * eg && 2 * ka * nn == 2 * (k * k * (nn * a))
  {
    var kk := k * k;
    assert kk * a * nn == kk * (nn * a);
  }

  lemma CancelBelow(rra: int, m0: int, u: int, eg: int)
    requires 0 < m0 && 512 * (m0 * rra) < 256 * (u * m0) * eg
    ensures 2 * rra < eg * u
  {
    assert u * m0 * eg == eg * u * m0;
    if 2 * rra >= eg * u {
      MulLe(eg * u, 2 * rra, m0);
    }
  }

  lemma SquareOut(c: int, r: int, a: int)
    ensures c * r * (c * r) * a == c * c * (r * r * a)
  {
    var cc, rr := c * c, r * r;
    assert c * r * (c * r) == cc * rr;
    assert cc * rr * a == cc * (rr * a);
  }

  lemma SeriesReached(k: int, n: int, r: int, p: int, w: int, h: int)
    requires 0 <= r && 0 <= k <= h && 0 <= w && p == h * w && 16 * p <= n && 64 * (p * r) + 129 * p >= 4 * (k * n)
    ensures 0 <= k * (20 * n + 27 * w) <= 32 * (p * (10 * r + 21))
  {
    var kn := k * n;
    MulLe(0, n, k);
    MulLe(0, w, k);
    MulLe(k, h, w);
    assert k * (20 * n + 27 * w) == 20 * kn + 27 * (k * w);
    assert p * (10 * r + 21) == 10 * (p * r) + 21 * p;
  }

  lemma CancelAbove(mma: int, m0: int, u: int, eg: int)
    requires 0 < m0 && 2048 * (m0 * mma) >= 102400 * (u * m0) * eg
    ensures mma >= 50 * (eg * u)
  {
    var egu := eg * u;
    assert u * m0 * eg == egu * m0;
    MulCancelLt(50 * egu - 1, mma, m0);
  }

  lemma NotFarBelow(u: int, k: int, s: int, r: int, a: int, eg: int, ka: int, w: int, h: int)
    requires 0 <= s && 359 * s <= u && U <= u && 0 <= r && 0 <= k <= h && 0 < a && 0 < eg
    requires 64 * (u * u * u * r) + 129 * (u * u * u) >= 4 * (k * Series(u, s))
    requires ka == k * k * a && 2 * ka >= eg * (u - s - 1) && 0 <= w && u * u * u == h * w && h == TWO32
    ensures (10 * r + 21) * (10 * r + 21) * a >= 50 * (eg * u)
  {
    var n, m, t, p := Series(u, s), 10 * r + 21, u - s - 1, u * u * u;
    var v := 20 * n + 27 * w;
    var vv := v * v;
    var m0, short := SeriesFallsShort(u, s, n);
    CubePositive(u, p, m0);
    m0 := SeriesAbove(u, s, n, w, v);
    SeriesReached(k, n, r, p, w, h);
    SquareTimesLe(k * v, 32 * (p * m), a, a);
    MulLe(0, v, v);
    MulLe(eg * t, 2 * ka, vv);
    SquareOut(k, v, a);
    SquareOf(32, p, m, m0, a);
    OneLess(eg, t, vv, ka, k, v, a);
    MulLe(102400 * (u * m0), t * vv, eg);
    CancelAbove(m * m * a, m0, u, eg);
  }

  /** The error of the entry, as the code has it. */
  lemma SigmaIs(ea: int, x: int, sigma: int)
    requires LOWEST <= ea * U < TWO103 && x == ea / 0x80_0000 && sigma == U - 1 - x
    ensures 0 <= sigma <= MOST && sigma == TWO32 - 1 - x % TWO32
    ensures 0x80_0000 * (U - sigma - 1) <= ea < 0x80_0000 * (U - sigma)
  {
    assert x % TWO32 == x - 255 * TWO32;
  }

  lemma EntryScaled(odd: nat, a: u32, r0: nat, rra: int)
    requires odd <= 1 && a >= 0x8000_0000 && rra == r0 * r0 * a && (2 - odd) * rra * U < TWO103
    ensures var e := r0 * r0 * (if odd == 0 then 2 else 1);
      0 <= e < TWO32 && e * a == (2 - odd) * rra
  {
    var rr := r0 * r0;
    var e := (2 - odd) * rr;
    assert e * a == (2 - odd) * rra;
    MulLe(0x8000_0000, a, e);
  }

  lemma RefinedWords(r0: nat, s: int, r1: int, b: int, sq: int, c: int)
    requires 0 < r0 < 0x1_0000 && 0 <= s <= MOST
    requires r1 == r0 * 0x1_0000 + r0 * s / 0x200_0000 && b == r1 / 2 + r1 / 8 - r0 * 0x4000
    requires sq == s * s / TWO32 && c == b * sq / 0x1_0000_0000_0000
    ensures Refined(U, r0 * 0x1_0000, s, r1, b, sq, c)
  {
    FirstWord(r0, s, r0 * s, r1);
  }

  lemma FirstWord(r0: nat, s: int, rs: int, r1: int)
    requires rs == r0 * s && r1 == r0 * 0x1_0000 + rs / 0x200_0000
    ensures 2 * (U * r1) <= 2 * (U * (r0 * 0x1_0000)) + r0 * 0x1_0000 * s < 2 * (U * r1) + 2 * U
  {
    assert r0 * 0x1_0000 * s == 0x1_0000 * rs;
  }

  const TWO55: int := 0x80_0000_0000_0000

  lemma SquareScales(odd: nat, r0: nat, a: int, ea: int, s: int, ka: int)
    requires odd <= 1 && ka == r0 * 0x1_0000 * (r0 * 0x1_0000) * a && ea == (2 - odd) * (r0 * r0 * a)
    requires 0x80_0000 * (U - s - 1) <= ea < 0x80_0000 * (U - s)
    ensures TWO55 * (1 + odd) * (U - s - 1) <= 2 * ka < TWO55 * (1 + odd) * (U - s)
  {
    SquareOut(0x1_0000, r0, a);
    Scales(odd, r0 * r0 * a, ea, s, ka);
  }

  lemma Scales(odd: nat, rra: int, ea: int, s: int, ka: int)
    requires odd <= 1 && ka == 0x1_0000 * 0x1_0000 * rra && ea == (2 - odd) * rra
    requires 0x80_0000 * (U - s - 1) <= ea < 0x80_0000 * (U - s)
    ensures TWO55 * (1 + odd) * (U - s - 1) <= 2 * ka < TWO55 * (1 + odd) * (U - s)
  {
  }

  lemma PowersOfU(u: int)
    requires u == U
    ensures u * u == TWO80 && u * u * u == TWO32 * 0x100_0000_0000_0000_0000_0000
  {
  }

  /** Cutting to 32 bits changes none of the words that the code computes. */
  lemma NothingIsCut(r0: nat, sigma: u32, r1: int, b: int, sq: int, c: int)
    requires r1 == r0 * 0x1_0000 + r0 * sigma / 0x200_0000 && b == r1 / 2 + r1 / 8 - r0 * 0x4000 && 0 <= b < TWO31
    requires sq == sigma * sigma / TWO32 && c == b * sq / 0x1_0000_0000_0000 && 0 <= r1 + c < TWO32
    ensures FromSigma(r0, sigma) == r1 + c
  {
    SmallMod(b);
    SmallMod(r1 + c);
  }

  lemma SmallMod(x: int)
    requires 0 <= x < TWO32
    ensures x % TWO32 == x
  {
  }

  /** The refined value is a reciprocal root of the accuracy asked for, but for its top bit. */
  lemma RefinementFits(odd: nat, a: u32, r0: nat, r: int)
    requires odd <= 1 && a >= 0x8000_0000 && r0 == TableEntry(odd, a) && r == Refinement(odd, a, r0)
    ensures r * r * a <= TWO94 * (1 + odd) && (10 * r + 21) * (10 * r + 21) * a >= 100 * TWO94 * (1 + odd)
  {
    FirstValue(odd, a, r0);
    var rra := r0 * r0 * a;
    EntryScaled(odd, a, r0, rra);
    var ea := (2 - odd) * rra;
    var x := ea / 0x80_0000;
    var sigma := U - 1 - x;
    SigmaIs(ea, x, sigma);
    var k, r1 := r0 * 0x1_0000, r0 * 0x1_0000 + r0 * sigma / 0x200_0000;
    var b, sq := r1 / 2 + r1 / 8 - r0 * 0x4000, sigma * sigma / TWO32;
    var c := b * sq / 0x1_0000_0000_0000;
    var ka := k * k * a;
    RefinedWords(r0, sigma, r1, b, sq, c);
    WordsInRange(U, k, sigma, r1, b, sq, c);
    SquareScales(odd, r0, a, ea, sigma, ka);
    PowersOfU(U);
    var whole := Upward(U, k, sigma, r1, b, sq, c);
    whole := Downward(U, k, sigma, r1, b, sq, c);
    MulLe(0, b, sq);
    NotAbove(U, k, sigma, r1 + c, a, TWO55 * (1 + odd), ka);
    NotFarBelow(U, k, sigma, r1 + c, a, TWO55 * (1 + odd), ka, 0x100_0000_0000_0000_0000_0000, TWO32);
    FitsWord(r1 + c, a, 1 + odd);
    NothingIsCut(r0, sigma, r1, b, sq, c);
    SmallMod(r0 * r0 * (if odd == 0 then 2 else 1));
  }

  lemma FitsWord(r: int, a: int, g: int)
    requires 0 <= r && a >= 0x8000_0000 && (g == 1 || g == 2) && r * r * a < TWO94 * g
    ensures r < TWO32
  {
    if r >= TWO32 {
      SquareTimesLe(TWO32, r, 0x8000_0000, a);
    }
  }

  /** Setting the top bit keeps the accuracy. */
  lemma TopBitSet(a: int, g: int, r: int)
    requires 0x8000_0000 <= a < TWO32 && (g == 1 || g == 2) && 0 <= r < TWO32
    requires r * r * a <= TWO94 * g && (10 * r + 21) * (10 * r + 21) * a >= 100 * TWO94 * g
    ensures IsRecipSqrt(a, g, if r < 0x8000_0000 then 0x8000_0000 else r)
  {
    if r < 0x8000_0000 {
      SquareTimesLe(10 * r + 21, 10 * 0x8000_0000 + 21, a, a);
    }
  }

  /** Every value of the table is a reciprocal square root of the accuracy asked for. */
  lemma TableIsAccurate(odd: nat, a: u32)
    requires odd <= 1 && a >= 0x8000_0000
    ensures IsRecipSqrt(a, 1 + odd, ApproxRecipSqrt32(odd, a))
  {
    var r := Refinement(odd, a, TableEntry(odd, a));
    RefinementFits(odd, a, TableEntry(odd, a), r);
    TopBitSet(a, 1 + odd, r);
  }
}

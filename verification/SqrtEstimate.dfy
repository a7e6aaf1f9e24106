/** The two estimates of the square root: how far they can be from the root of the radicand, given what
    the reciprocal square root table promises. */
module SqrtEstimate {
  import opened Words
  import opened PowersOfTwo
  import opened Primitives

  const TWO62: int := 0x4000_0000_0000_0000
  const TWO94: int := 0x4000_0000_0000_0000_0000_0000
  const TWO126: int := 0x4000_0000_0000_0000_0000_0000_0000_0000

  /** What the table promises of r for a significand a, read with one integer bit when g is 2 and with two
      when g is 1: in units of 2^-32, never above 1 / sqrt(a), below it by at most 2.1, and at least a half. */
  ghost predicate IsRecipSqrt(a: int, g: int, r: int) {
    && 0x8000_0000 <= a < TWO32 && (g == 1 || g == 2)
    && 0x8000_0000 <= r < TWO32
    && r * r * a <= TWO94 * g
    && (10 * r + 21) * (10 * r + 21) * a >= 100 * TWO94 * g
  }

  /** The radicand is the significand shifted left by 62, or by 61 for an odd exponent. */
  ghost predicate IsRadicand(sigA: int, g: int, x: int) {
    TWO63 <= sigA < TWO64 && (g == 1 || g == 2) && g * x == sigA * TWO62
  }

  /** The first estimate: s is a * r / 2^32, halved for an odd exponent. */
  ghost predicate IsFirst(a: int, g: int, r: int, s: int) {
    s * (TWO32 * g) <= a * r < (s + 1) * (TWO32 * g)
  }

  // ----- the first estimate

  lemma Expand(r: int, a: int)
    ensures (10 * r + 21) * (10 * r + 21) * a == 100 * (r * r * a) + 420 * (a * r) + 441 * a
  {
    assert (10 * r + 21) * (10 * r + 21) == 100 * (r * r) + 420 * r + 441;
    var rr := r * r;
    assert (100 * rr + 420 * r + 441) * a == 100 * (rr * a) + 420 * (a * r) + 441 * a;
  }

  /** s * r is at most 2^62, and less than that by at most r + 4.2 s and a little. */
  lemma ProductNearTwo62(a: int, g: int, r: int, s: int)
    requires IsRecipSqrt(a, g, r) && IsFirst(a, g, r, s)
    ensures 0 <= s && s * r <= TWO62
    ensures 100 * ((s + 1) * r) + 420 * (s + 1) + 441 > 100 * TWO62
  {
    var q, big := a * r, TWO32 * g;
    Expand(r, a);
    AsProduct(r, a, q);
    if s < 0 {
      MulLe(0, a, r);
      MulLe(s + 1, 0, big);
    }
    MulLe(s * big, q, r);
    Cancel(s * r, big, TWO62, s, r);
    MulLe(q, (s + 1) * big - 1, r);
    LowerProduct(a, g, r, s, q, big);
  }

  lemma AsProduct(r: int, a: int, q: int)
    requires q == a * r
    ensures r * r * a == q * r
  {
  }

  lemma Cancel(sr: int, big: int, bound: int, s: int, r: int)
    requires big > 0 && sr == s * r && s * big * r <= bound * big
    ensures sr <= bound
  {
    assert s * big * r == sr * big;
    if sr > bound {
      MulLe(bound + 1, sr, big);
    }
  }

  lemma LowerProduct(a: int, g: int, r: int, s: int, q: int, big: int)
    requires g == 1 || g == 2
    requires big == TWO32 * g && 0 <= a < TWO32 && 0 <= r && q <= (s + 1) * big - 1
    requires q * r <= ((s + 1) * big - 1) * r
    requires 100 * (q * r) + 420 * q + 441 * a >= 100 * TWO94 * g
    ensures 100 * ((s + 1) * r) + 420 * (s + 1) + 441 > 100 * TWO62
  {
    var m, s1 := (s + 1) * r, s + 1;
    assert (s1 * big - 1) * r == m * big - r;
    LowerWords(q * r, m * big, s1 * big, q, r, a, big, g);
    FactorBig(m, s1, big);
    MulCancelLt(100 * TWO62, 100 * m + 420 * s1 + 441, big);
  }

  lemma FactorBig(m: int, s1: int, big: int)
    ensures (100 * m + 420 * s1 + 441) * big == 100 * (m * big) + 420 * (s1 * big) + 441 * big
  {
  }

  lemma LowerWords(qr: int, mb: int, sb: int, q: int, r: int, a: int, big: int, g: int)
    requires (g == 1 || g == 2) && big == TWO32 * g && 0 <= a < TWO32 && 0 <= r
    requires qr <= mb - r && q <= sb - 1 && 100 * qr + 420 * q + 441 * a >= 100 * TWO94 * g
    ensures 100 * mb + 420 * sb + 441 * big > 100 * TWO62 * big
  {
  }

  /** s lies just below the root of the radicand over 2^64, a number between 2^30 and 2^31. */
  lemma FirstRange(a: int, g: int, r: int, s: int)
    requires IsRecipSqrt(a, g, r) && IsFirst(a, g, r, s)
    ensures 0x4000_0000 - 2 <= s < r && s < 0x8000_0000
  {
    ProductNearTwo62(a, g, r, s);
    MulLe(r, TWO32 - 1, s + 1);
    MulLt(a, TWO32, r);
    MulLe(TWO32, TWO32 * g, r);
    assert s * (TWO32 * g) < r * (TWO32 * g);
    MulCancelLt(s, r, TWO32 * g);
    if s >= 0x8000_0000 {
      MulLe(0x8000_0000, s, r);
      MulLt(s, r, 0x8000_0000);
    }
  }

  lemma SquareScaled(s: int, g: int, m: int, q: int, a: int, r: int, rra: int)
    requires 0 <= s && (g == 1 || g == 2) && m == s * (TWO32 * g) && q == a * r && 0 <= m <= q && 0 <= a
    requires rra == r * r * a && rra <= TWO94 * g
    ensures s * s * TWO64 * (g * g) <= TWO94 * g * a
  {
    MulLe(m, q, m);
    MulLe(m, q, q);
    assert q * q == rra * a;
    MulLe(rra, TWO94 * g, a);
    assert m * m == s * s * TWO64 * (g * g);
  }

  /** s is a lower bound on the root. */
  lemma FirstBelow(sigA: int, g: int, x: int, r: int, s: int)
    requires IsRadicand(sigA, g, x) && IsRecipSqrt(sigA / TWO32, g, r) && IsFirst(sigA / TWO32, g, r, s)
    ensures s * s * TWO64 <= x
  {
    var a := sigA / TWO32;
    ProductNearTwo62(a, g, r, s);
    MulLe(0, s, TWO32 * g);
    SquareScaled(s, g, s * (TWO32 * g), a * r, a, r, r * r * a);
    BelowRadicand(sigA, g, x, a, s * s * TWO64);
  }

  lemma BelowRadicand(sigA: int, g: int, x: int, a: int, ss: int)
    requires (g == 1 || g == 2) && g * x == sigA * TWO62 && a * TWO32 <= sigA
    requires ss * (g * g) <= TWO94 * g * a
    ensures ss <= x
  {
  }

  /** What is left of the radicand after the first estimate. */
  lemma FirstResidual(sigA: int, g: int, x: int, r: int, s: int)
    requires IsRadicand(sigA, g, x) && IsRecipSqrt(sigA / TWO32, g, r) && IsFirst(sigA / TWO32, g, r, s)
    ensures 0 <= x - s * s * TWO64
    ensures 100 * (x - s * s * TWO64) < TWO64 * (720 * s + 1361)
  {
    var a, big, s1 := sigA / TWO32, TWO32 * g, s + 1;
    FirstBelow(sigA, g, x, r, s);
    FirstRange(a, g, r, s);
    ProductNearTwo62(a, g, r, s);
    RadicandTimesR(sigA, g, x, r, s1, a);
    var m, ss, sr := s1 * r, s * s, s * r;
    assert 100 * (x * r - ss * r * TWO64) < TWO64 * (720 * sr + 1361 * r) by {
      MulLe(TWO62 * 100, 100 * m + 420 * s1 + 441, s1);
      SquareOfNext(r, s, m);
      SumTimes(m, s1);
      Collect(x * r, ss * r, sr, r, m * s1, s1 * s1, s1);
    }
    CancelResidual(x, ss, s, r, x * r, ss * r, sr);
  }

  lemma RadicandTimesR(sigA: int, g: int, x: int, r: int, s1: int, a: int)
    requires IsRadicand(sigA, g, x) && a == sigA / TWO32 && 0 < r && a * r < s1 * (TWO32 * g)
    ensures x * r < s1 * TWO126 + r * TWO94
  {
    var q := a * r;
    MulLt(sigA, (a + 1) * TWO32, r);
    assert (a + 1) * TWO32 * r == q * TWO32 + r * TWO32;
    assert g * x * r == sigA * r * TWO62;
    if g == 2 {
      assert 2 * (x * r) == sigA * r * TWO62;
    }
  }

  lemma SquareOfNext(r: int, s: int, m: int)
    requires 0x4000_0000 - 2 <= s < r && m == (s + 1) * r
    ensures m * (s + 1) == s * s * r + 2 * (s * r) + r && (s + 1) * (s + 1) <= s * r + r
    ensures 0x4000_0000 * r <= s * r + 2 * r
  {
  }

  lemma CancelResidual(x: int, ss: int, s: int, r: int, xr: int, ssr: int, sr: int)
    requires 0 < r && xr == x * r && ssr == ss * r && sr == s * r
    requires 100 * (xr - ssr * TWO64) < TWO64 * (720 * sr + 1361 * r)
    ensures 100 * (x - ss * TWO64) < TWO64 * (720 * s + 1361)
  {
  }

  lemma SumTimes(m: int, s1: int)
    ensures (100 * m + 420 * s1 + 441) * s1 == 100 * (m * s1) + 420 * (s1 * s1) + 441 * s1
  {
  }

  lemma Collect(xr: int, ssr: int, sr: int, r: int, ms1: int, s1s1: int, s1: int)
    requires 0 < r && ms1 == ssr + 2 * sr + r && s1s1 <= sr + r && s1 <= r && 0x4000_0000 * r <= sr + 2 * r
    requires xr < s1 * TWO126 + r * TWO94
    requires TWO62 * 100 * s1 <= 100 * ms1 + 420 * s1s1 + 441 * s1
    ensures 100 * (xr - ssr * TWO64) < TWO64 * (720 * sr + 1361 * r)
  {
  }

  // ----- the digits below the first estimate

  /** The middle digit q, in units of 8 below the words of s: it fits its word, the sum does not leave the
      root by more than the square of the digit above, nor by more than 62 below. */
  lemma MiddleDigit(n0: int, s: int, r: int, v: int, w: int, q: int)
    requires 0x4000_0000 - 2 <= s < 0x8000_0000 && 0 < r < TWO32 && s * r <= TWO62
    requires 100 * ((s + 1) * r) + 420 * (s + 1) + 441 > 100 * TWO62
    requires 0 <= n0 && 100 * n0 < TWO64 * (720 * s + 1361)
    requires v == n0 / TWO64 && w == v / 4 && q == w * r / TWO32
    ensures 0 <= w < TWO32 && 0 <= q < TWO32
    ensures s * q * 0x10_0000_0000 <= n0
    ensures n0 < s * (8 * q + 62) * 0x2_0000_0000
  {
    var sr, wr := s * r, w * r;
    MulLe(0, w, r);
    MulLe(r, TWO32, w);
    assert 100 * ((s + 1) * r) == 100 * sr + 100 * r;
    DigitAbove(n0, s, r, v, w, q, sr);
    var e := TWO62 - sr;
    assert 0 <= e <= 13_315_000_000;
    MulLe(e, 13_315_000_000, v);
    MulLe(0, e, v);
    DigitBelow(n0, s, v, w, q, sr, e * v, wr, r);
  }

  lemma DigitAbove(n0: int, s: int, r: int, v: int, w: int, q: int, sr: int)
    requires 0 <= s && 0 <= v && v * TWO64 <= n0 && 0 <= w && 4 * w <= v && q * TWO32 <= w * r && sr == s * r && sr <= TWO62
    ensures s * q * 0x10_0000_0000 <= n0
  {
    MulLe(q * TWO32, w * r, s);
    assert q * TWO32 * s == s * q * TWO32;
    assert w * r * s == w * sr;
    MulLe(sr, TWO62, w);
  }

  lemma DigitBelow(n0: int, s: int, v: int, w: int, q: int, sr: int, ev: int, wr: int, r: int)
    requires 0x4000_0000 - 2 <= s && sr == s * r && wr == w * r && ev == (TWO62 - sr) * v
    requires 0 <= v && 100 * n0 < TWO64 * (720 * s + 1361) && v * TWO64 <= n0 < v * TWO64 + TWO64
    requires v <= 4 * w + 3 && wr < (q + 1) * TWO32 && 0 <= sr <= TWO62 && 0 <= ev <= 13_315_000_000 * v
    ensures n0 < s * (8 * q + 62) * 0x2_0000_0000
  {
    var sq, wsr := s * q, w * sr;
    DigitProducts(s, q, w, v, r, sr);
    MulLe(wr + 1, (q + 1) * TWO32, s);
    MulLe(v, 4 * w + 3, sr);
    Gather(n0, s, v, sq, wsr, sr, ev);
  }

  lemma DigitProducts(s: int, q: int, w: int, v: int, r: int, sr: int)
    requires sr == s * r
    ensures (q + 1) * TWO32 * s == (s * q + s) * TWO32 && (w * r + 1) * s == w * sr + s
    ensures v * sr == v * TWO62 - (TWO62 - sr) * v && (4 * w + 3) * sr == 4 * (w * sr) + 3 * sr
    ensures s * (8 * q + 62) == 8 * (s * q) + 62 * s
  {
    assert w * r * s == w * sr;
  }

  lemma Gather(n0: int, s: int, v: int, sq: int, wsr: int, sr: int, ev: int)
    requires 0x4000_0000 - 2 <= s && 0 <= v && 100 * n0 < TWO64 * (720 * s + 1361)
    requires v * TWO64 <= n0 < v * TWO64 + TWO64
    requires wsr + s <= (sq + s) * TWO32 && v * TWO62 - ev <= 4 * wsr + 3 * sr && ev <= 13_315_000_000 * v
    requires sr <= TWO62
    ensures n0 < (8 * sq + 62 * s) * 0x2_0000_0000
  {
  }

  /** The root times r, from above and from below. */
  lemma RootTimesR(sigA: int, g: int, x: int, r: int, s: int, z: int)
    requires IsRadicand(sigA, g, x) && IsRecipSqrt(sigA / TWO32, g, r) && IsFirst(sigA / TWO32, g, r, s)
    requires s * TWO32 <= z && z * z <= x
    ensures TWO94 - 0x4_0000_0000_0000_0000 <= z * r <= TWO94 + TWO62
  {
    var a := sigA / TWO32;
    ProductNearTwo62(a, g, r, s);
    FirstRange(a, g, r, s);
    LowProduct(s, r, z);
    SquareOfR(a, g, r);
    RadicandTimesSquare(sigA, g, x, a, r * r);
    HighProduct(x, r, z);
  }

  lemma LowProduct(s: int, r: int, z: int)
    requires 0 < s < 0x8000_0000 && 0 < r < TWO32 && s * TWO32 <= z
    requires 100 * ((s + 1) * r) + 420 * (s + 1) + 441 > 100 * TWO62
    ensures TWO94 - 0x4_0000_0000_0000_0000 <= z * r
  {
    var sr := s * r;
    MulLe(s * TWO32, z, r);
    assert s * TWO32 * r == sr * TWO32;
    assert (s + 1) * r == sr + r;
  }

  lemma HighProduct(x: int, r: int, z: int)
    requires 0 < r && 0 < z && z * z <= x && x * (r * r) <= TWO94 * TWO94 + TWO94 * TWO63
    ensures z * r <= TWO94 + TWO62
  {
    var zr := z * r;
    MulLe(z * z, x, r * r);
    assert z * z * (r * r) == zr * zr;
    if zr > TWO94 + TWO62 {
      MulLe(TWO94 + TWO62, zr, zr);
      MulLe(TWO94 + TWO62, zr, TWO94 + TWO62);
    }
  }

  lemma SquareOfR(a: int, g: int, r: int)
    requires IsRecipSqrt(a, g, r)
    ensures r * r <= TWO63 * g
  {
    var rr := r * r;
    if g == 1 {
      if rr > TWO63 {
        MulLe(0x8000_0000, a, rr);
      }
    } else {
      MulLe(r, TWO32, r);
    }
  }

  lemma RadicandTimesSquare(sigA: int, g: int, x: int, a: int, rr: int)
    requires IsRadicand(sigA, g, x) && a == sigA / TWO32 && 0 <= rr <= TWO63 * g && rr * a <= TWO94 * g
    ensures x * rr <= TWO94 * TWO94 + TWO94 * TWO63
  {
    MulLe(sigA, (a + 1) * TWO32, rr);
    assert (a + 1) * TWO32 * rr == (rr * a + rr) * TWO32;
    assert g * x * rr == sigA * rr * TWO62;
    if g == 2 {
      assert 2 * (x * rr) == sigA * rr * TWO62;
    }
  }

  /** The last digit u, in units of 2^-26 of the middle estimate z: its product fits 64 bits, and the root
      lies between one unit below and 32 above. */
  lemma LastDigit(x: int, z: int, r: int, y: int, w: int, u: int)
    requires 0 < z && 0 < r < TWO32 && y == x - z * z && 0 <= y < 124 * z + 3844
    requires TWO94 - 0x4_0000_0000_0000_0000 <= z * r <= TWO94 + TWO62
    requires w == y / 0x20_0000_0000 && u == w * r / TWO32
    ensures 0 <= w * r < TWO64 && 0 <= u <= 62 * 0x400_0000 + 0x10
    ensures (0x400_0000 * z + u - 1) * (0x400_0000 * z + u - 1) < 0x10_0000_0000_0000 * x
    ensures (0x400_0000 * z + u + 32) * (0x400_0000 * z + u + 32) > 0x10_0000_0000_0000 * x
  {
    LastProduct(z, r, y, w, u);
    LastBelow(z, r, y, u, z * r, y * r);
    LastAbove(z, r, y, u, z * r, y * r);
    SquareOfSum(z, u - 1);
    SquareOfSum(z, u + 32);
  }

  lemma SquareOfSum(z: int, n: int)
    ensures (0x400_0000 * z + n) * (0x400_0000 * z + n)
         == 0x10_0000_0000_0000 * (z * z) + n * (0x800_0000 * z + n)
  {
  }

  lemma LastProduct(z: int, r: int, y: int, w: int, u: int)
    requires 0 < z && 0 < r < TWO32 && 0 <= y < 124 * z + 3844 && z * r <= TWO94 + TWO62
    requires w == y / 0x20_0000_0000 && u == w * r / TWO32
    ensures 0 <= w * r < TWO64 && 0 <= u <= 62 * 0x400_0000 + 0x10
    ensures u * 0x20_0000_0000_0000_0000 <= y * r < (u + 2) * 0x20_0000_0000_0000_0000
  {
    var wr := w * r;
    MulLe(0, w, r);
    MulLe(y, 124 * z + 3844, r);
    assert (124 * z + 3844) * r == 124 * (z * r) + 3844 * r;
    MulLe(w * 0x20_0000_0000, y, r);
    MulLe(y, w * 0x20_0000_0000 + 0x1F_FFFF_FFFF, r);
    assert w * 0x20_0000_0000 * r == wr * 0x20_0000_0000;
    assert (w * 0x20_0000_0000 + 0x1F_FFFF_FFFF) * r == wr * 0x20_0000_0000 + 0x1F_FFFF_FFFF * r;
  }

  lemma LastBelow(z: int, r: int, y: int, u: int, zr: int, yr: int)
    requires 0 < z && 0 < r < TWO32 && 0 <= y && zr == z * r && yr == y * r && zr <= TWO94 + TWO62
    requires 0 <= u <= 62 * 0x400_0000 + 0x10
    requires u * 0x20_0000_0000_0000_0000 <= yr
    ensures (u - 1) * (0x800_0000 * z + u - 1) < 0x10_0000_0000_0000 * y
  {
    if u == 0 {
      return;
    }
    var n := u - 1;
    var f := 0x800_0000 * z + n;
    assert f * r == 0x800_0000 * zr + n * r;
    MulLe(r, TWO32, n);
    MulLe(f * r, 0x800_0000 * (TWO94 + TWO62) + n * TWO32, n);
    MulLe(n, 62 * 0x400_0000 + 0x10, n);
    assert n * f * r == f * r * n;
    assert 0x10_0000_0000_0000 * y * r == 0x10_0000_0000_0000 * yr;
    MulCancelLt(n * f, 0x10_0000_0000_0000 * y, r);
  }

  lemma LastAbove(z: int, r: int, y: int, u: int, zr: int, yr: int)
    requires 0 < z && 0 < r < TWO32 && 0 <= y && zr == z * r && yr == y * r
    requires TWO94 - 0x4_0000_0000_0000_0000 <= zr && 0 <= u <= 62 * 0x400_0000 + 0x10
    requires yr < (u + 2) * 0x20_0000_0000_0000_0000
    ensures (u + 32) * (0x800_0000 * z + u + 32) > 0x10_0000_0000_0000 * y
  {
    var n := u + 32;
    var f := 0x800_0000 * z + n;
    assert f * r == 0x800_0000 * zr + n * r;
    MulLe(0, n, r);
    MulLe(0x800_0000 * (TWO94 - 0x4_0000_0000_0000_0000), f * r, n);
    assert n * f * r == f * r * n;
    assert 0x10_0000_0000_0000 * y * r == 0x10_0000_0000_0000 * yr;
    MulCancelLt(0x10_0000_0000_0000 * y, n * f, r);
  }
}

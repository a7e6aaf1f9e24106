/** Powers of two, as the integer meaning of the shifts in the modelled code,
    and the few facts about products and quotients that the proofs share. */
module PowersOfTwo {

  function Pow2(n: nat): (p: nat)
    ensures p >= 1
  {
    if n == 0 then 1 else 2 * Pow2(n - 1)
  }

  lemma {:induction false} Pow2Add(m: nat, n: nat)
    ensures Pow2(m + n) == Pow2(m) * Pow2(n)
  {
    if m > 0 {
      Pow2Add(m - 1, n);
    }
  }

  lemma {:induction false} Pow2Monotone(m: nat, n: nat)
    requires m <= n
    ensures Pow2(m) <= Pow2(n)
  {
    if m < n {
      Pow2Monotone(m, n - 1);
    }
  }

  lemma Pow2Even(n: nat)
    requires n > 0
    ensures Pow2(n) % 2 == 0
  {
  }

  lemma Pow2Split(n: nat)
    ensures Pow2(n + 3) == 8 * Pow2(n)
    ensures Pow2(2 * n) == Pow2(n) * Pow2(n)
  {
    Pow2Add(n, n);
    assert Pow2(n + 3) == 2 * Pow2(n + 2) == 4 * Pow2(n + 1);
  }

  lemma Pow2SmallValues()
    ensures Pow2(1) == 2 && Pow2(16) == 0x1_0000
    ensures Pow2(29) == 0x2000_0000 && Pow2(31) == 0x8000_0000 && Pow2(32) == 0x1_0000_0000
  {
    assert Pow2(4) == 16;
    Pow2Split(4);
    Pow2Split(8);
    Pow2Split(16);
    Pow2Split(29);
  }

  lemma Pow2Values()
    ensures Pow2(1) == 2 && Pow2(16) == 0x1_0000
    ensures Pow2(29) == 0x2000_0000 && Pow2(31) == 0x8000_0000 && Pow2(32) == 0x1_0000_0000
    ensures Pow2(61) == 0x2000_0000_0000_0000 && Pow2(62) == 0x4000_0000_0000_0000
    ensures Pow2(63) == 0x8000_0000_0000_0000 && Pow2(64) == 0x1_0000_0000_0000_0000
  {
    Pow2SmallValues();
    Pow2Split(32);
    Pow2Split(61);
  }

  lemma MulLe(a: int, b: int, m: int)
    requires a <= b && m >= 0
    ensures a * m <= b * m
  {
  }

  lemma MulLt(a: int, b: int, m: int)
    requires a < b && m > 0
    ensures a * m < b * m
  {
  }

  lemma MulAssoc(a: int, b: int, c: int)
    ensures a * b * c == a * (b * c)
  {
  }

  lemma MulCancelLt(a: int, b: int, m: int)
    requires m > 0 && a * m < b * m
    ensures a < b
  {
    if b <= a {
      MulLe(b, a, m);
    }
  }

  lemma MulGap(j: int, k: int, n: nat, den: int)
    requires den > 0 && j + n <= k
    ensures j * den + n * den <= k * den
  {
    MulLe(j + n, k, den);
  }

  /** Distinct multiples of den are at least den apart. */
  lemma MultiplesApart(j: int, k: int, den: int)
    requires den > 0
    ensures j < k ==> j * den + den <= k * den
    ensures k < j ==> k * den + den <= j * den
    ensures j + 1 < k ==> j * den + 2 * den <= k * den
    ensures k + 1 < j ==> k * den + 2 * den <= j * den
  {
    if j < k {
      MulGap(j, k, if j + 1 < k then 2 else 1, den);
    } else if k < j {
      MulGap(k, j, if k + 1 < j then 2 else 1, den);
    }
  }

  lemma DivMod(x: int, m: int)
    requires m > 0
    ensures x / m * m + x % m == x
  {
  }

  /** The quotient and remainder of a division are the only ones there are. */
  lemma DivModUnique(x: int, m: int, d: int, r: int)
    requires m > 0 && 0 <= r < m && x == d * m + r
    ensures x / m == d && x % m == r
  {
    assert (x / m) * m + x % m == x;
    if x / m < d {
      MulLe(x / m + 1, d, m);
    } else if d < x / m {
      MulLe(d + 1, x / m, m);
    }
  }

  /** Multiplying by p commutes with taking the remainder, once the modulus is scaled too. */
  lemma MulModMul(x: int, p: int, q: int)
    requires p > 0 && q > 0
    ensures p * q > 0
    ensures x * p % (p * q) == p * (x % q)
    ensures x * p / (p * q) == x / q
    ensures 0 <= p * (x % q) <= p * q - p
  {
    var d, r := x / q, x % q;
    assert x * p == d * (p * q) + p * r by {
      assert x == d * q + r;
    }
    MulLe(r, q - 1, p);
    MulLe(0, r, p);
    MulLt(0, q, p);
    DivModUnique(x * p, p * q, d, p * r);
  }

  /** A remainder modulo a multiple of q leaves the remainder modulo q. */
  lemma ModOfMod(x: int, m: int, q: int)
    requires m > 0 && q > 0 && m % q == 0
    ensures x % m % q == x % q
  {
    var d, n, r := x / m, m / q, x % m;
    DivMod(x, m);
    DivMod(m, q);
    DivMod(r, q);
    assert x == (d * n + r / q) * q + r % q by {
      MulAssoc(d, n, q);
      assert d * m == d * n * q;
    }
    DivModUnique(x, q, d * n + r / q, r % q);
  }
}

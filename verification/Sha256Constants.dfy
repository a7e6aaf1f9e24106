/** The constants of SHA-256 are what sections 4.2.2 and 5.3.3 of FIPS 180-4 say they are: the first 32 bits of
    the fractional parts of the cube roots of the first 64 primes, and of the square roots of the first 8. */
module Sha256Constants {
  import opened Words
  import opened PowersOfTwo
  import opened Sha256Spec

  const PRIMES: seq<nat> :=
    [2, 3, 5, 7, 11, 13, 17, 19]
    + [23, 29, 31, 37, 41, 43, 47, 53]
    + [59, 61, 67, 71, 73, 79, 83, 89]
    + [97, 101, 103, 107, 109, 113, 127, 131]
    + [137, 139, 149, 151, 157, 163, 167, 173]
    + [179, 181, 191, 193, 197, 199, 211, 223]
    + [227, 229, 233, 239, 241, 251, 257, 263]
    + [269, 271, 277, 281, 283, 293, 307, 311]

  // ----- primes

  predicate Divides(d: nat, n: nat)
    requires d > 0
  {
    n % d == 0
  }

  ghost predicate IsPrime(n: nat) {
    n > 1 && forall d: nat :: 1 < d < n ==> !Divides(d, n)
  }

  /** No divisor from 2 to 18 but itself. */
  predicate Trial(n: nat) {
    && (n == 2 || n % 2 != 0) && (n == 3 || n % 3 != 0) && (n == 5 || n % 5 != 0) && (n == 7 || n % 7 != 0)
    && (n == 11 || n % 11 != 0) && (n == 13 || n % 13 != 0) && (n == 17 || n % 17 != 0)
  }

  lemma TrialFinds(n: nat, k: nat)
    requires 1 < k <= 18 && k < n && Divides(k, n)
    ensures !Trial(n)
  {
    if k == 4 || k == 8 || k == 16 {
      MultipleOf(n, k, 2);
    } else if k == 6 || k == 12 || k == 18 {
      MultipleOf(n, k, 2);
    } else if k == 10 || k == 14 {
      MultipleOf(n, k, 2);
    } else if k == 9 || k == 15 {
      MultipleOf(n, k, 3);
    }
  }

  lemma MultipleOf(n: nat, k: nat, d: nat)
    requires k > 0 && d > 0 && k % d == 0 && n % k == 0
    ensures n % d == 0
  {
    ModOfMod(n, k, d);
  }

  lemma TrialFound(n: nat) returns (k: nat)
    requires n > 1 && !Trial(n)
    ensures 1 < k < n && Divides(k, n)
  {
    k := if n % 2 == 0 && n != 2 then 2 else if n % 3 == 0 && n != 3 then 3 else if n % 5 == 0 && n != 5 then 5
         else if n % 7 == 0 && n != 7 then 7 else if n % 11 == 0 && n != 11 then 11
         else if n % 13 == 0 && n != 13 then 13 else 17;
  }

  /** Of two factors of a number below 19 * 19 one is below 19. */
  lemma SmallFactor(n: nat, d: nat) returns (k: nat)
    requires n < 361 && 1 < d < n && Divides(d, n)
    ensures 1 < k <= 18 && k < n && Divides(k, n)
  {
    var e := n / d;
    assert n == d * e;
    if d <= 18 {
      k := d;
    } else {
      k := e;
      CoFactor(n, d, e);
    }
  }

  lemma CoFactor(n: nat, d: nat, e: nat)
    requires 18 < d < n < 361 && n == d * e
    ensures 1 < e <= 18 && n % e == 0
  {
    MulLe(19, d, e);
    MulModMul(d, e, 1);
  }

  lemma TrialDecides(n: nat)
    requires 1 < n < 361
    ensures Trial(n) <==> IsPrime(n)
  {
    if !Trial(n) {
      var k := TrialFound(n);
    } else if !IsPrime(n) {
      var d: nat :| 1 < d < n && Divides(d, n);
      var k := SmallFactor(n, d);
      TrialFinds(n, k);
    }
  }

  /** No prime from n to below q. */
  predicate Gap(n: nat, q: nat)
    requires n > 1
    decreases q - n
  {
    n >= q || (!Trial(n) && Gap(n + 1, q))
  }

  lemma {:induction false} GapHasNone(n: nat, q: nat, k: nat)
    requires 1 < n <= k < q <= 361 && Gap(n, q)
    ensures !IsPrime(k)
    decreases q - n
  {
    TrialDecides(k);
    if n < k {
      GapHasNone(n + 1, q, k);
    }
  }

  // ----- roots

  /** word is the first 32 bits after the point of the cube root of p, which has c before it. */
  predicate IsCubeRootWord(word: u32, c: nat, p: nat) {
    var x := c * 0x1_0000_0000 + word;
    x * x * x <= p * 0x1_0000_0000_0000_0000_0000_0000 < (x + 1) * (x + 1) * (x + 1)
  }

  /** The same for the square root. */
  predicate IsSquareRootWord(word: u32, c: nat, p: nat) {
    var x := c * 0x1_0000_0000 + word;
    x * x <= p * 0x1_0000_0000_0000_0000 < (x + 1) * (x + 1)
  }

  function WholeCubeRoot(p: nat): nat {
    if p < 8 then 1 else if p < 27 then 2 else if p < 64 then 3 else if p < 125 then 4 else if p < 216 then 5 else 6
  }

  // ----- the tables

  /** p is the next prime after before, and word the first 32 bits of the fractional part of its cube root. */
  ghost predicate IsConstantOf(before: nat, p: nat, word: u32) {
    && before < p && IsPrime(p) && (forall n: nat :: before < n < p ==> !IsPrime(n))
    && exists c: nat :: IsCubeRootWord(word, c, p)
  }

  /** The number before prime t in the list; 1 before the first. */
  function Before(t: nat): nat
    requires t < 64
  {
    if t == 0 then 1 else PRIMES[t - 1]
  }

  /** What section 4.2.2 says of entry t. */
  ghost predicate IsRoundConstant(t: nat)
    requires t < 64
  {
    IsConstantOf(Before(t), PRIMES[t], K[t])
  }

  predicate Checked(before: nat, p: nat, c: nat, word: u32) {
    0 < before < p < 361 && Trial(p) && Gap(before + 1, p) && IsCubeRootWord(word, c, p)
  }

  lemma CheckedIs(before: nat, p: nat, c: nat, word: u32)
    requires Checked(before, p, c, word)
    ensures IsConstantOf(before, p, word)
  {
    TrialDecides(p);
    forall n: nat | before < n < p
      ensures !IsPrime(n)
    {
      GapHasNone(before + 1, p, n);
    }
  }

  lemma ConstantsFrom0()
    ensures IsConstantOf(1, 2, 0x428a2f98)
    ensures IsConstantOf(2, 3, 0x71374491)
    ensures IsConstantOf(3, 5, 0xb5c0fbcf)
    ensures IsConstantOf(5, 7, 0xe9b5dba5)
  {
    assert Checked(1, 2, 1, 0x428a2f98);
    CheckedIs(1, 2, 1, 0x428a2f98);
    assert Checked(2, 3, 1, 0x71374491);
    CheckedIs(2, 3, 1, 0x71374491);
    assert Checked(3, 5, 1, 0xb5c0fbcf);
    CheckedIs(3, 5, 1, 0xb5c0fbcf);
    assert Checked(5, 7, 1, 0xe9b5dba5);
    CheckedIs(5, 7, 1, 0xe9b5dba5);
  }

  lemma ConstantsFrom4()
    ensures IsConstantOf(7, 11, 0x3956c25b)
    ensures IsConstantOf(11, 13, 0x59f111f1)
    ensures IsConstantOf(13, 17, 0x923f82a4)
    ensures IsConstantOf(17, 19, 0xab1c5ed5)
  {
    assert Checked(7, 11, 2, 0x3956c25b);
    CheckedIs(7, 11, 2, 0x3956c25b);
    assert Checked(11, 13, 2, 0x59f111f1);
    CheckedIs(11, 13, 2, 0x59f111f1);
    assert Checked(13, 17, 2, 0x923f82a4);
    CheckedIs(13, 17, 2, 0x923f82a4);
    assert Checked(17, 19, 2, 0xab1c5ed5);
    CheckedIs(17, 19, 2, 0xab1c5ed5);
  }

  lemma ConstantsFrom8()
    ensures IsConstantOf(19, 23, 0xd807aa98)
    ensures IsConstantOf(23, 29, 0x12835b01)
    ensures IsConstantOf(29, 31, 0x243185be)
    ensures IsConstantOf(31, 37, 0x550c7dc3)
  {
    assert Checked(19, 23, 2, 0xd807aa98);
    CheckedIs(19, 23, 2, 0xd807aa98);
    assert Checked(23, 29, 3, 0x12835b01);
    CheckedIs(23, 29, 3, 0x12835b01);
    assert Checked(29, 31, 3, 0x243185be);
    CheckedIs(29, 31, 3, 0x243185be);
    assert Checked(31, 37, 3, 0x550c7dc3);
    CheckedIs(31, 37, 3, 0x550c7dc3);
  }

  lemma ConstantsFrom12()
    ensures IsConstantOf(37, 41, 0x72be5d74)
    ensures IsConstantOf(41, 43, 0x80deb1fe)
    ensures IsConstantOf(43, 47, 0x9bdc06a7)
    ensures IsConstantOf(47, 53, 0xc19bf174)
  {
    assert Checked(37, 41, 3, 0x72be5d74);
    CheckedIs(37, 41, 3, 0x72be5d74);
    assert Checked(41, 43, 3, 0x80deb1fe);
    CheckedIs(41, 43, 3, 0x80deb1fe);
    assert Checked(43, 47, 3, 0x9bdc06a7);
    CheckedIs(43, 47, 3, 0x9bdc06a7);
    assert Checked(47, 53, 3, 0xc19bf174);
    CheckedIs(47, 53, 3, 0xc19bf174);
  }

  lemma ConstantsFrom16()
    ensures IsConstantOf(53, 59, 0xe49b69c1)
    ensures IsConstantOf(59, 61, 0xefbe4786)
    ensures IsConstantOf(61, 67, 0x0fc19dc6)
    ensures IsConstantOf(67, 71, 0x240ca1cc)
  {
    assert Checked(53, 59, 3, 0xe49b69c1);
    CheckedIs(53, 59, 3, 0xe49b69c1);
    assert Checked(59, 61, 3, 0xefbe4786);
    CheckedIs(59, 61, 3, 0xefbe4786);
    assert Checked(61, 67, 4, 0x0fc19dc6);
    CheckedIs(61, 67, 4, 0x0fc19dc6);
    assert Checked(67, 71, 4, 0x240ca1cc);
    CheckedIs(67, 71, 4, 0x240ca1cc);
  }

  lemma ConstantsFrom20()
    ensures IsConstantOf(71, 73, 0x2de92c6f)
    ensures IsConstantOf(73, 79, 0x4a7484aa)
    ensures IsConstantOf(79, 83, 0x5cb0a9dc)
    ensures IsConstantOf(83, 89, 0x76f988da)
  {
    assert Checked(71, 73, 4, 0x2de92c6f);
    CheckedIs(71, 73, 4, 0x2de92c6f);
    assert Checked(73, 79, 4, 0x4a7484aa);
    CheckedIs(73, 79, 4, 0x4a7484aa);
    assert Checked(79, 83, 4, 0x5cb0a9dc);
    CheckedIs(79, 83, 4, 0x5cb0a9dc);
    assert Checked(83, 89, 4, 0x76f988da);
    CheckedIs(83, 89, 4, 0x76f988da);
  }

  lemma ConstantsFrom24()
    ensures IsConstantOf(89, 97, 0x983e5152)
    ensures IsConstantOf(97, 101, 0xa831c66d)
    ensures IsConstantOf(101, 103, 0xb00327c8)
    ensures IsConstantOf(103, 107, 0xbf597fc7)
  {
    assert Checked(89, 97, 4, 0x983e5152);
    CheckedIs(89, 97, 4, 0x983e5152);
    assert Checked(97, 101, 4, 0xa831c66d);
    CheckedIs(97, 101, 4, 0xa831c66d);
    assert Checked(101, 103, 4, 0xb00327c8);
    CheckedIs(101, 103, 4, 0xb00327c8);
    assert Checked(103, 107, 4, 0xbf597fc7);
    CheckedIs(103, 107, 4, 0xbf597fc7);
  }

  lemma ConstantsFrom28()
    ensures IsConstantOf(107, 109, 0xc6e00bf3)
    ensures IsConstantOf(109, 113, 0xd5a79147)
    ensures IsConstantOf(113, 127, 0x06ca6351)
    ensures IsConstantOf(127, 131, 0x14292967)
  {
    assert Checked(107, 109, 4, 0xc6e00bf3);
    CheckedIs(107, 109, 4, 0xc6e00bf3);
    assert Checked(109, 113, 4, 0xd5a79147);
    CheckedIs(109, 113, 4, 0xd5a79147);
    assert Checked(113, 127, 5, 0x06ca6351);
    CheckedIs(113, 127, 5, 0x06ca6351);
    assert Checked(127, 131, 5, 0x14292967);
    CheckedIs(127, 131, 5, 0x14292967);
  }

  lemma ConstantsFrom32()
    ensures IsConstantOf(131, 137, 0x27b70a85)
    ensures IsConstantOf(137, 139, 0x2e1b2138)
    ensures IsConstantOf(139, 149, 0x4d2c6dfc)
    ensures IsConstantOf(149, 151, 0x53380d13)
  {
    assert Checked(131, 137, 5, 0x27b70a85);
    CheckedIs(131, 137, 5, 0x27b70a85);
    assert Checked(137, 139, 5, 0x2e1b2138);
    CheckedIs(137, 139, 5, 0x2e1b2138);
    assert Checked(139, 149, 5, 0x4d2c6dfc);
    CheckedIs(139, 149, 5, 0x4d2c6dfc);
    assert Checked(149, 151, 5, 0x53380d13);
    CheckedIs(149, 151, 5, 0x53380d13);
  }

  lemma ConstantsFrom36()
    ensures IsConstantOf(151, 157, 0x650a7354)
    ensures IsConstantOf(157, 163, 0x766a0abb)
    ensures IsConstantOf(163, 167, 0x81c2c92e)
    ensures IsConstantOf(167, 173, 0x92722c85)
  {
    assert Checked(151, 157, 5, 0x650a7354);
    CheckedIs(151, 157, 5, 0x650a7354);
    assert Checked(157, 163, 5, 0x766a0abb);
    CheckedIs(157, 163, 5, 0x766a0abb);
    assert Checked(163, 167, 5, 0x81c2c92e);
    CheckedIs(163, 167, 5, 0x81c2c92e);
    assert Checked(167, 173, 5, 0x92722c85);
    CheckedIs(167, 173, 5, 0x92722c85);
  }

  lemma ConstantsFrom40()
    ensures IsConstantOf(173, 179, 0xa2bfe8a1)
    ensures IsConstantOf(179, 181, 0xa81a664b)
    ensures IsConstantOf(181, 191, 0xc24b8b70)
    ensures IsConstantOf(191, 193, 0xc76c51a3)
  {
    assert Checked(173, 179, 5, 0xa2bfe8a1);
    CheckedIs(173, 179, 5, 0xa2bfe8a1);
    assert Checked(179, 181, 5, 0xa81a664b);
    CheckedIs(179, 181, 5, 0xa81a664b);
    assert Checked(181, 191, 5, 0xc24b8b70);
    CheckedIs(181, 191, 5, 0xc24b8b70);
    assert Checked(191, 193, 5, 0xc76c51a3);
    CheckedIs(191, 193, 5, 0xc76c51a3);
  }

  lemma ConstantsFrom44()
    ensures IsConstantOf(193, 197, 0xd192e819)
    ensures IsConstantOf(197, 199, 0xd6990624)
    ensures IsConstantOf(199, 211, 0xf40e3585)
    ensures IsConstantOf(211, 223, 0x106aa070)
  {
    assert Checked(193, 197, 5, 0xd192e819);
    CheckedIs(193, 197, 5, 0xd192e819);
    assert Checked(197, 199, 5, 0xd6990624);
    CheckedIs(197, 199, 5, 0xd6990624);
    assert Checked(199, 211, 5, 0xf40e3585);
    CheckedIs(199, 211, 5, 0xf40e3585);
    assert Checked(211, 223, 6, 0x106aa070);
    CheckedIs(211, 223, 6, 0x106aa070);
  }

  lemma ConstantsFrom48()
    ensures IsConstantOf(223, 227, 0x19a4c116)
    ensures IsConstantOf(227, 229, 0x1e376c08)
    ensures IsConstantOf(229, 233, 0x2748774c)
    ensures IsConstantOf(233, 239, 0x34b0bcb5)
  {
    assert Checked(223, 227, 6, 0x19a4c116);
    CheckedIs(223, 227, 6, 0x19a4c116);
    assert Checked(227, 229, 6, 0x1e376c08);
    CheckedIs(227, 229, 6, 0x1e376c08);
    assert Checked(229, 233, 6, 0x2748774c);
    CheckedIs(229, 233, 6, 0x2748774c);
    assert Checked(233, 239, 6, 0x34b0bcb5);
    CheckedIs(233, 239, 6, 0x34b0bcb5);
  }

  lemma ConstantsFrom52()
    ensures IsConstantOf(239, 241, 0x391c0cb3)
    ensures IsConstantOf(241, 251, 0x4ed8aa4a)
    ensures IsConstantOf(251, 257, 0x5b9cca4f)
    ensures IsConstantOf(257, 263, 0x682e6ff3)
  {
    assert Checked(239, 241, 6, 0x391c0cb3);
    CheckedIs(239, 241, 6, 0x391c0cb3);
    assert Checked(241, 251, 6, 0x4ed8aa4a);
    CheckedIs(241, 251, 6, 0x4ed8aa4a);
    assert Checked(251, 257, 6, 0x5b9cca4f);
    CheckedIs(251, 257, 6, 0x5b9cca4f);
    assert Checked(257, 263, 6, 0x682e6ff3);
    CheckedIs(257, 263, 6, 0x682e6ff3);
  }

  lemma ConstantsFrom56()
    ensures IsConstantOf(263, 269, 0x748f82ee)
    ensures IsConstantOf(269, 271, 0x78a5636f)
    ensures IsConstantOf(271, 277, 0x84c87814)
    ensures IsConstantOf(277, 281, 0x8cc70208)
  {
    assert Checked(263, 269, 6, 0x748f82ee);
    CheckedIs(263, 269, 6, 0x748f82ee);
    assert Checked(269, 271, 6, 0x78a5636f);
    CheckedIs(269, 271, 6, 0x78a5636f);
    assert Checked(271, 277, 6, 0x84c87814);
    CheckedIs(271, 277, 6, 0x84c87814);
    assert Checked(277, 281, 6, 0x8cc70208);
    CheckedIs(277, 281, 6, 0x8cc70208);
  }

  lemma ConstantsFrom60()
    ensures IsConstantOf(281, 283, 0x90befffa)
    ensures IsConstantOf(283, 293, 0xa4506ceb)
    ensures IsConstantOf(293, 307, 0xbef9a3f7)
    ensures IsConstantOf(307, 311, 0xc67178f2)
  {
    assert Checked(281, 283, 6, 0x90befffa);
    CheckedIs(281, 283, 6, 0x90befffa);
    assert Checked(283, 293, 6, 0xa4506ceb);
    CheckedIs(283, 293, 6, 0xa4506ceb);
    assert Checked(293, 307, 6, 0xbef9a3f7);
    CheckedIs(293, 307, 6, 0xbef9a3f7);
    assert Checked(307, 311, 6, 0xc67178f2);
    CheckedIs(307, 311, 6, 0xc67178f2);
  }

  lemma Row0(t: nat)
    requires 0 <= t < 8
    ensures IsRoundConstant(t)
  {
    ConstantsFrom0();
    ConstantsFrom4();
  }

  lemma Row1(t: nat)
    requires 8 <= t < 16
    ensures IsRoundConstant(t)
  {
    ConstantsFrom8();
    ConstantsFrom12();
  }

  lemma Row2(t: nat)
    requires 16 <= t < 24
    ensures IsRoundConstant(t)
  {
    ConstantsFrom16();
    ConstantsFrom20();
  }

  lemma Row3(t: nat)
    requires 24 <= t < 32
    ensures IsRoundConstant(t)
  {
    ConstantsFrom24();
    ConstantsFrom28();
  }

  lemma Row4(t: nat)
    requires 32 <= t < 40
    ensures IsRoundConstant(t)
  {
    ConstantsFrom32();
    ConstantsFrom36();
  }

  lemma Row5(t: nat)
    requires 40 <= t < 48
    ensures IsRoundConstant(t)
  {
    ConstantsFrom40();
    ConstantsFrom44();
  }

  lemma Row6(t: nat)
    requires 48 <= t < 56
    ensures IsRoundConstant(t)
  {
    ConstantsFrom48();
    ConstantsFrom52();
  }

  lemma Row7(t: nat)
    requires 56 <= t < 64
    ensures IsRoundConstant(t)
  {
    ConstantsFrom56();
    ConstantsFrom60();
  }

  /** The table of section 4.2.2: entry t belongs to prime number t, and no prime is left out. */
  lemma RoundConstants(t: nat)
    requires t < 64
    ensures IsRoundConstant(t) && PRIMES[0] == 2
  {
    if t < 32 {
      if t < 8 { Row0(t); } else if t < 16 { Row1(t); } else if t < 24 { Row2(t); } else { Row3(t); }
    } else {
      if t < 40 { Row4(t); } else if t < 48 { Row5(t); } else if t < 56 { Row6(t); } else { Row7(t); }
    }
  }

  /** The words of section 5.3.3, for the same primes. */
  lemma InitialWords(t: nat)
    requires t < 8
    ensures exists c: nat :: IsSquareRootWord(IV[t], c, PRIMES[t])
  {
    assert IsSquareRootWord(0x6a09e667, 1, 2);
    assert IsSquareRootWord(0xbb67ae85, 1, 3);
    assert IsSquareRootWord(0x3c6ef372, 2, 5);
    assert IsSquareRootWord(0xa54ff53a, 2, 7);
    assert IsSquareRootWord(0x510e527f, 3, 11);
    assert IsSquareRootWord(0x9b05688c, 3, 13);
    assert IsSquareRootWord(0x1f83d9ab, 4, 17);
    assert IsSquareRootWord(0x5be0cd19, 4, 19);
    var c := if t < 2 then 1 else if t < 4 then 2 else if t < 6 then 3 else 4;
    assert IsSquareRootWord(IV[t], c, PRIMES[t]);
  }
}

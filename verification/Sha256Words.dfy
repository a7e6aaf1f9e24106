/** The operations on 32-bit words of section 3.2 of FIPS 180-4 and the six functions of section 4.1.2, on
    integers, and what they do to each bit. */
module Sha256Words {
  import opened Words
  import opened PowersOfTwo

  /** The bit of weight 2^i. */
  predicate Bit(x: nat, i: nat) {
    x / Pow2(i) % 2 == 1
  }

  function AndBits(x: nat, y: nat, n: nat): (z: nat)
    ensures z < Pow2(n)
  {
    if n == 0 then 0 else (if x % 2 == 1 && y % 2 == 1 then 1 else 0) + 2 * AndBits(x / 2, y / 2, n - 1)
  }

  function XorBits(x: nat, y: nat, n: nat): (z: nat)
    ensures z < Pow2(n)
  {
    if n == 0 then 0 else (if x % 2 != y % 2 then 1 else 0) + 2 * XorBits(x / 2, y / 2, n - 1)
  }

  function And(x: u32, y: u32): u32 {
    Pow2Values();
    AndBits(x, y, 32)
  }

  function Xor(x: u32, y: u32): u32 {
    Pow2Values();
    XorBits(x, y, 32)
  }

  function Not(x: u32): u32 {
    0xFFFF_FFFF - x
  }

  function RightShift(x: u32, n: nat): u32
    requires n < 32
  {
    DivMod(x, Pow2(n));
    ShiftFits(x, Pow2(n));
    x / Pow2(n)
  }

  lemma ShiftFits(x: nat, p: nat)
    requires p > 0
    ensures 0 <= x / p <= x
  {
    DivMod(x, p);
    MulLe(1, p, x / p);
  }

  /** The n low bits go to the top: they and the bits moved down do not overlap. */
  function RightRotate(x: u32, n: nat): u32
    requires 0 < n < 32
  {
    RotateFits(x, n);
    x / Pow2(n) + x % Pow2(n) * Pow2(32 - n)
  }

  lemma RotateFits(x: u32, n: nat)
    requires 0 < n < 32
    ensures 0 <= x / Pow2(n) < Pow2(32 - n) && 0 <= x / Pow2(n) + x % Pow2(n) * Pow2(32 - n) < TWO32
  {
    Pow2Values();
    Pow2Add(n, 32 - n);
    DivMod(x, Pow2(n));
    PartsFit(x / Pow2(n), x % Pow2(n), Pow2(n), Pow2(32 - n));
  }

  lemma PartsFit(d: int, r: int, p: int, q: int)
    requires p > 0 && q > 0 && 0 <= r < p && 0 <= d * p + r < p * q
    ensures 0 <= d < q && 0 <= d + r * q < p * q
  {
    MulCancelLt(d, q, p);
    MulCancelLt(-1, d, p);
    MulLe(r, p - 1, q);
    MulLe(0, r, q);
    assert (p - 1) * q == p * q - q;
  }

  // ----- the six functions

  function Ch(x: u32, y: u32, z: u32): u32 {
    Xor(And(x, y), And(Not(x), z))
  }

  function Maj(x: u32, y: u32, z: u32): u32 {
    Xor(Xor(And(x, y), And(x, z)), And(y, z))
  }

  function BigSigma0(x: u32): u32 {
    Xor(Xor(RightRotate(x, 2), RightRotate(x, 13)), RightRotate(x, 22))
  }

  function BigSigma1(x: u32): u32 {
    Xor(Xor(RightRotate(x, 6), RightRotate(x, 11)), RightRotate(x, 25))
  }

  function SmallSigma0(x: u32): u32 {
    Xor(Xor(RightRotate(x, 7), RightRotate(x, 18)), RightShift(x, 3))
  }

  function SmallSigma1(x: u32): u32 {
    Xor(Xor(RightRotate(x, 17), RightRotate(x, 19)), RightShift(x, 10))
  }

  // ----- bits

  lemma BitStep(x: nat, i: nat)
    ensures Bit(x, 0) <==> x % 2 == 1
    ensures i > 0 ==> (Bit(x, i) <==> Bit(x / 2, i - 1))
  {
    if i > 0 {
      var p := Pow2(i - 1);
      HalfFirst(x, p);
    }
  }

  lemma HalfFirst(x: nat, p: nat)
    requires p > 0
    ensures x / (2 * p) == x / 2 / p
  {
    var h, b := x / 2, x % 2;
    var d, r := h / p, h % p;
    DivMod(h, p);
    assert x == 2 * (d * p + r) + b;
    assert d * (2 * p) == 2 * (d * p);
    DivModUnique(x, 2 * p, d, 2 * r + b);
  }

  lemma {:induction false} AndBit(x: nat, y: nat, n: nat, i: nat)
    requires i < n
    ensures Bit(AndBits(x, y, n), i) <==> Bit(x, i) && Bit(y, i)
  {
    BitStep(x, i);
    BitStep(y, i);
    BitStep(AndBits(x, y, n), i);
    if i > 0 {
      AndBit(x / 2, y / 2, n - 1, i - 1);
    }
  }

  lemma {:induction false} XorBit(x: nat, y: nat, n: nat, i: nat)
    requires i < n
    ensures Bit(XorBits(x, y, n), i) <==> Bit(x, i) != Bit(y, i)
  {
    BitStep(x, i);
    BitStep(y, i);
    BitStep(XorBits(x, y, n), i);
    if i > 0 {
      XorBit(x / 2, y / 2, n - 1, i - 1);
    }
  }

  /** Complement in n bits. */
  lemma {:induction false} NotBit(x: nat, n: nat, i: nat)
    requires i < n && x < Pow2(n)
    ensures Bit(Pow2(n) - 1 - x, i) <==> !Bit(x, i)
  {
    BitStep(x, i);
    BitStep(Pow2(n) - 1 - x, i);
    if i > 0 {
      assert (Pow2(n) - 1 - x) / 2 == Pow2(n - 1) - 1 - x / 2;
      NotBit(x / 2, n - 1, i - 1);
    }
  }

  /** hi on top of m bits of lo. */
  lemma {:induction false} JoinedBit(lo: nat, hi: nat, m: nat, i: nat)
    requires lo < Pow2(m)
    ensures lo + hi * Pow2(m) >= 0
    ensures Bit(lo + hi * Pow2(m), i) <==> if i < m then Bit(lo, i) else Bit(hi, i - m)
  {
    MulLe(0, hi, Pow2(m));
    if m > 0 {
      var half := hi * Pow2(m - 1);
      MulLe(0, hi, Pow2(m - 1));
      assert hi * Pow2(m) == 2 * half;
      BitStep(lo, i);
      BitStep(lo + 2 * half, i);
      if i > 0 {
        assert (lo + 2 * half) / 2 == lo / 2 + half;
        JoinedBit(lo / 2, hi, m - 1, i - 1);
      }
    }
  }

  lemma SplitBit(x: nat, n: nat, i: nat)
    ensures x / Pow2(n) >= 0 && (Bit(x / Pow2(n), i) <==> Bit(x, n + i))
    ensures i < n ==> (Bit(x % Pow2(n), i) <==> Bit(x, i))
  {
    DivMod(x, Pow2(n));
    ShiftFits(x, Pow2(n));
    JoinedBit(x % Pow2(n), x / Pow2(n), n, n + i);
    JoinedBit(x % Pow2(n), x / Pow2(n), n, i);
  }

  lemma NoBitAbove(x: u32, i: nat)
    requires i >= 32
    ensures !Bit(x, i)
  {
    Pow2Values();
    Pow2Monotone(32, i);
    DivModUnique(x, Pow2(i), 0, x);
  }

  lemma ShiftBit(x: u32, n: nat, i: nat)
    requires n < 32
    ensures Bit(RightShift(x, n), i) <==> n + i < 32 && Bit(x, n + i)
  {
    SplitBit(x, n, i);
    if n + i >= 32 {
      NoBitAbove(x, n + i);
    }
  }

  /** Rotation moves every bit n places down, and round. */
  lemma RotateBit(x: u32, n: nat, i: nat)
    requires 0 < n < 32 && i < 32
    ensures Bit(RightRotate(x, n), i) <==> Bit(x, (i + n) % 32)
  {
    RotateFits(x, n);
    JoinedBit(x / Pow2(n), x % Pow2(n), 32 - n, i);
    if i < 32 - n {
      SplitBit(x, n, i);
    } else {
      SplitBit(x, n, i - (32 - n));
    }
  }

  lemma NotWordBit(x: u32, i: nat)
    requires i < 32
    ensures Bit(Not(x), i) <==> !Bit(x, i)
  {
    Pow2Values();
    NotBit(x, 32, i);
  }

  /** Ch takes each bit from y where x has it, and from z where x has not. */
  lemma ChBit(x: u32, y: u32, z: u32, i: nat)
    requires i < 32
    ensures Bit(Ch(x, y, z), i) <==> if Bit(x, i) then Bit(y, i) else Bit(z, i)
  {
    AndBit(x, y, 32, i);
    AndBit(Not(x), z, 32, i);
    NotWordBit(x, i);
    XorBit(And(x, y), And(Not(x), z), 32, i);
  }

  /** Maj has each bit that at least two of the words have. */
  lemma MajBit(x: u32, y: u32, z: u32, i: nat)
    requires i < 32
    ensures Bit(Maj(x, y, z), i)
        <==> (Bit(x, i) && Bit(y, i)) || (Bit(x, i) && Bit(z, i)) || (Bit(y, i) && Bit(z, i))
  {
    AndBit(x, y, 32, i);
    AndBit(x, z, 32, i);
    AndBit(y, z, 32, i);
    Xor3Bit(And(x, y), And(x, z), And(y, z), i);
  }

  lemma Xor3Bit(x: u32, y: u32, z: u32, i: nat)
    requires i < 32
    ensures Bit(Xor(Xor(x, y), z), i) <==> ((Bit(x, i) != Bit(y, i)) != Bit(z, i))
  {
    XorBit(x, y, 32, i);
    XorBit(Xor(x, y), z, 32, i);
  }

  /** Each bit of a capital sigma is the sum modulo 2 of three bits, counted round. */
  lemma BigSigma0Bit(x: u32, i: nat)
    requires i < 32
    ensures Bit(BigSigma0(x), i) <==> ((Bit(x, (i + 2) % 32) != Bit(x, (i + 13) % 32)) != Bit(x, (i + 22) % 32))
  {
    RotateBit(x, 2, i);
    RotateBit(x, 13, i);
    RotateBit(x, 22, i);
    Xor3Bit(RightRotate(x, 2), RightRotate(x, 13), RightRotate(x, 22), i);
  }

  lemma BigSigma1Bit(x: u32, i: nat)
    requires i < 32
    ensures Bit(BigSigma1(x), i) <==> ((Bit(x, (i + 6) % 32) != Bit(x, (i + 11) % 32)) != Bit(x, (i + 25) % 32))
  {
    RotateBit(x, 6, i);
    RotateBit(x, 11, i);
    RotateBit(x, 25, i);
    Xor3Bit(RightRotate(x, 6), RightRotate(x, 11), RightRotate(x, 25), i);
  }

  /** In a small sigma the third one does not go round. */
  lemma SmallSigma0Bit(x: u32, i: nat)
    requires i < 32
    ensures Bit(SmallSigma0(x), i)
        <==> ((Bit(x, (i + 7) % 32) != Bit(x, (i + 18) % 32)) != (i + 3 < 32 && Bit(x, i + 3)))
  {
    RotateBit(x, 7, i);
    RotateBit(x, 18, i);
    ShiftBit(x, 3, i);
    Xor3Bit(RightRotate(x, 7), RightRotate(x, 18), RightShift(x, 3), i);
  }

  lemma SmallSigma1Bit(x: u32, i: nat)
    requires i < 32
    ensures Bit(SmallSigma1(x), i)
        <==> ((Bit(x, (i + 17) % 32) != Bit(x, (i + 19) % 32)) != (i + 10 < 32 && Bit(x, i + 10)))
  {
    RotateBit(x, 17, i);
    RotateBit(x, 19, i);
    ShiftBit(x, 10, i);
    Xor3Bit(RightRotate(x, 17), RightRotate(x, 19), RightShift(x, 10), i);
  }

  /** The bits determine the word, so these lemmas determine the functions. */
  lemma {:induction false} SameBits(x: nat, y: nat, n: nat)
    requires x < Pow2(n) && y < Pow2(n) && forall i: nat :: i < n ==> Bit(x, i) == Bit(y, i)
    ensures x == y
  {
    if n > 0 {
      forall i: nat | i < n - 1
        ensures Bit(x / 2, i) == Bit(y / 2, i)
      {
        BitStep(x, i + 1);
        BitStep(y, i + 1);
        assert Bit(x, i + 1) == Bit(y, i + 1);
      }
      SameBits(x / 2, y / 2, n - 1);
      BitStep(x, 0);
      BitStep(y, 0);
      assert Bit(x, 0) == Bit(y, 0);
    }
  }
}

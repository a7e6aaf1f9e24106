/** The definitions of Sha256Spec as the standard writes them: sums modulo 2^32, numbers as bytes, and the
    shape of a padded message (sections 5.1.1 and 6.2.2 of FIPS 180-4). */
module Sha256Equations {
  import opened Words
  import opened PowersOfTwo
  import opened Sha256Spec

  // ----- sums

  lemma Plus3(a: word, b: word, c: word)
    ensures Plus(Plus(a, b), c) == (a + b + c) % 0x1_0000_0000
  {
  }

  lemma Plus4(a: word, b: word, c: word, d: word)
    ensures Plus(Plus(Plus(a, b), c), d) == (a + b + c + d) % 0x1_0000_0000
  {
    PlusIsModular(a, b);
    PlusIsModular(Plus(a, b), c);
    PlusIsModular(Plus(Plus(a, b), c), d);
  }

  lemma Plus5(a: word, b: word, c: word, d: word, e: word)
    ensures Plus(Plus(Plus(Plus(a, b), c), d), e) == (a + b + c + d + e) % 0x1_0000_0000
  {
    Plus4(a, b, c, d);
    PlusIsModular(Plus(Plus(Plus(a, b), c), d), e);
  }

  /** One round on the working variables a to h. */
  lemma RoundEquations(f: Mixing, a: word, b: word, c: word, d: word, e: word, f': word, g: word, h: word, k: word, w: word)
    ensures var t1 := (h + f.bigSigma1(e) + f.ch(e, f', g) + k + w) % 0x1_0000_0000;
      var t2 := (f.bigSigma0(a) + f.maj(a, b, c)) % 0x1_0000_0000;
      Round(f, [a, b, c, d, e, f', g, h], k, w)
        == [(t1 + t2) % 0x1_0000_0000, a, b, c, (d + t1) % 0x1_0000_0000, e, f', g]
  {
    var t1, t2 := T1(f, [a, b, c, d, e, f', g, h], k, w), T2(f, [a, b, c, d, e, f', g, h]);
    Plus5(h, f.bigSigma1(e), f.ch(e, f', g), k, w);
    PlusIsModular(f.bigSigma0(a), f.maj(a, b, c));
    PlusIsModular(t1, t2);
    PlusIsModular(d, t1);
  }

  /** The message schedule. */
  lemma ScheduleEquation(f: Mixing, block: seq<byte>, t: nat)
    requires |block| == 64 && t < 64
    ensures t < 16 ==> W(f, block, t) == ValueOf(block[4 * t..4 * t + 4])
    ensures t >= 16 ==>
      W(f, block, t) == (f.smallSigma1(W(f, block, t - 2)) + W(f, block, t - 7) + f.smallSigma0(W(f, block, t - 15))
                         + W(f, block, t - 16)) % 0x1_0000_0000
  {
    if t < 16 {
      FourBytes(block[4 * t..4 * t + 4]);
    } else {
      Plus4(f.smallSigma1(W(f, block, t - 2)), W(f, block, t - 7), f.smallSigma0(W(f, block, t - 15)), W(f, block, t - 16));
    }
  }

  /** The working variables start from the hash value, take round t with constant t and schedule word t, and are
      added to the hash value after 64 rounds. */
  lemma CompressEquations(f: Mixing, h: seq<word>, block: seq<byte>, t: nat, i: nat)
    requires |h| == 8 && |block| == 64 && t < 64 && i < 8
    ensures Rounds(f, h, block, 0) == h
    ensures Rounds(f, h, block, t + 1) == Round(f, Rounds(f, h, block, t), K[t], W(f, block, t))
    ensures var before: int, added: int := h[i], Rounds(f, h, block, 64)[i];
      Compress(f, h, block)[i] == (before + added) % 0x1_0000_0000
  {
    PlusIsModular(h[i], Rounds(f, h, block, 64)[i]);
  }

  /** One block after another, from the initial value. */
  lemma HashEquations(f: Mixing, m: seq<byte>, block: seq<byte>)
    requires |m| % 64 == 0 && |block| == 64
    ensures HashBlocks(f, []) == IV
    ensures HashBlocks(f, m + block) == Compress(f, HashBlocks(f, m), block)
  {
    assert (m + block)[..|m|] == m && (m + block)[|m|..] == block;
  }

  // ----- bytes

  lemma FourBytes(b: seq<byte>)
    requires |b| == 4
    ensures ValueOf(b) == BigEndianWord(b[0], b[1], b[2], b[3])
  {
    var b0: nat, b1: nat, b2: nat := b[0], b[1], b[2];
    assert b[..3][..2] == b[..2] && b[..2][..1] == b[..1] && b[..1][..0] == [];
    assert ValueOf(b[..1]) == b0;
    assert ValueOf(b[..2]) == 256 * b0 + b1;
    assert ValueOf(b[..3]) == 256 * (256 * b0 + b1) + b2;
  }

  /** The bytes of a word stand for it, and so word i of a digest is in bytes 4 i to 4 i + 3. */
  lemma WordInBytes(x: word)
    ensures |WordBytes(x)| == 4 && ValueOf(WordBytes(x)) == x
  {
    var b := WordBytes(x);
    FourBytes(b);
    NextByte(x, 1);
    NextByte(x, 0x100);
    NextByte(x, 0x1_0000);
  }

  lemma NextByte(x: nat, p: nat)
    requires p > 0
    ensures x / p == 256 * (x / (256 * p)) + x / p % 256
  {
    var y, r := x / p, x % p;
    var d, s := y / 256, y % 256;
    DivMod(x, p);
    MulLe(s, 255, p);
    MulLe(0, s, p);
    assert y * p == d * (256 * p) + s * p by {
      assert y == d * 256 + s;
      MulAssoc(d, 256, p);
    }
    DivModUnique(x, 256 * p, d, s * p + r);
  }

  lemma {:induction false} DigestWord(h: seq<word>, i: nat)
    requires i < |h|
    ensures ValueOf(DigestBytes(h)[4 * i..4 * i + 4]) == h[i]
  {
    var front := h[..|h| - 1];
    if i < |h| - 1 {
      DigestWord(front, i);
      assert DigestBytes(h)[4 * i..4 * i + 4] == DigestBytes(front)[4 * i..4 * i + 4];
    } else {
      WordInBytes(h[i]);
      assert DigestBytes(h)[4 * i..4 * i + 4] == WordBytes(h[i]);
    }
  }

  lemma {:induction false} BigEndianValue(n: nat, width: nat)
    ensures ValueOf(BigEndian(n, width)) == n % Power256(width)
  {
    if width > 0 {
      var rest := BigEndian(n / 256, width - 1);
      BigEndianValue(n / 256, width - 1);
      assert BigEndian(n, width)[..width - 1] == rest;
      LastByte(n, Power256(width - 1));
    }
  }

  lemma LastByte(n: nat, p: nat)
    requires p > 0
    ensures 256 * p > 0 && n % (256 * p) == 256 * (n / 256 % p) + n % 256
  {
    var q := n / 256;
    DivMod(q, p);
    assert n == q / p * (256 * p) + (256 * (q % p) + n % 256) by {
      assert 256 * (q / p * p) == q / p * (256 * p);
    }
    DivModUnique(n, 256 * p, q / p, 256 * (q % p) + n % 256);
  }

  /** A padded message is the message, a byte with its top bit alone, zeros, and the length in bits as eight bytes, in
      the least number of whole blocks that has room for them. */
  lemma PadShape(m: seq<byte>)
    ensures var p := Pad(m);
      && |p| % 64 == 0 && |m| + 9 <= |p| < |m| + 9 + 64
      && p[..|m|] == m && p[|m|] == 0x80
      && (forall i :: |m| < i < |p| - 8 ==> p[i] == 0)
      && ValueOf(p[|p| - 8..]) == 8 * |m| % TWO64
  {
    var p, zeros, length := Pad(m), ZeroCount(|m|), BigEndian(8 * |m|, 8);
    assert p == m + [0x80] + Zeros(zeros) + length;
    assert p[..|m|] == m;
    assert p[|p| - 8..] == length;
    BigEndianValue(8 * |m|, 8);
    EightBytes();
  }

  lemma EightBytes()
    ensures Power256(8) == TWO64
  {
    assert Power256(4) == 0x1_0000_0000;
  }
}

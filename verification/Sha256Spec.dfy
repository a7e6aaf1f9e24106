/** SHA-256 as FIPS 180-4 defines it: padding (section 5.1.1), message schedule and compression
    (section 6.2.2), and the digest of a whole message. */
module Sha256Spec {
  import opened Words
  import opened Sha256Words

  type word = u32

  /** Addition of words, modulo 2^32. */
  function Plus(x: word, y: word): (z: word) {
    var sum := x + y;
    if sum < 0x1_0000_0000 then sum else sum - 0x1_0000_0000
  }

  lemma PlusIsModular(x: word, y: word)
    ensures Plus(x, y) == (x + y) % 0x1_0000_0000
  {
  }

  /** The six functions of section 4.1.2. Nothing below depends on which functions they are, so they
      are a parameter; FIPS at the end gives the ones of the standard. */
  datatype Mixing = Mixing(
    ch: (word, word, word) -> word,
    maj: (word, word, word) -> word,
    bigSigma0: word -> word,
    bigSigma1: word -> word,
    smallSigma0: word -> word,
    smallSigma1: word -> word)

  /** The round constants of section 4.2.2. */
  const K: seq<word> :=
    [0x428a2f98, 0x71374491, 0xb5c0fbcf, 0xe9b5dba5, 0x3956c25b, 0x59f111f1, 0x923f82a4, 0xab1c5ed5]
    + [0xd807aa98, 0x12835b01, 0x243185be, 0x550c7dc3, 0x72be5d74, 0x80deb1fe, 0x9bdc06a7, 0xc19bf174]
    + [0xe49b69c1, 0xefbe4786, 0x0fc19dc6, 0x240ca1cc, 0x2de92c6f, 0x4a7484aa, 0x5cb0a9dc, 0x76f988da]
    + [0x983e5152, 0xa831c66d, 0xb00327c8, 0xbf597fc7, 0xc6e00bf3, 0xd5a79147, 0x06ca6351, 0x14292967]
    + [0x27b70a85, 0x2e1b2138, 0x4d2c6dfc, 0x53380d13, 0x650a7354, 0x766a0abb, 0x81c2c92e, 0x92722c85]
    + [0xa2bfe8a1, 0xa81a664b, 0xc24b8b70, 0xc76c51a3, 0xd192e819, 0xd6990624, 0xf40e3585, 0x106aa070]
    + [0x19a4c116, 0x1e376c08, 0x2748774c, 0x34b0bcb5, 0x391c0cb3, 0x4ed8aa4a, 0x5b9cca4f, 0x682e6ff3]
    + [0x748f82ee, 0x78a5636f, 0x84c87814, 0x8cc70208, 0x90befffa, 0xa4506ceb, 0xbef9a3f7, 0xc67178f2]

  /** The initial hash value of section 5.3.3. */
  const IV: seq<word> := [
    0x6a09e667, 0xbb67ae85, 0x3c6ef372, 0xa54ff53a, 0x510e527f, 0x9b05688c, 0x1f83d9ab, 0x5be0cd19]

  /** Four bytes as a big-endian word. */
  function BigEndianWord(b0: byte, b1: byte, b2: byte, b3: byte): word {
    0x100_0000 * b0 + 0x1_0000 * b1 + 0x100 * b2 + b3
  }

  /** The message schedule W of a block, all 64 words of it. */
  ghost function W(f: Mixing, block: seq<byte>, t: nat): word
    requires |block| == 64 && t < 64
  {
    if t < 16 then BigEndianWord(block[4 * t], block[4 * t + 1], block[4 * t + 2], block[4 * t + 3])
    else Plus(Plus(Plus(f.smallSigma1(W(f, block, t - 2)), W(f, block, t - 7)), f.smallSigma0(W(f, block, t - 15))),
              W(f, block, t - 16))
  }

  function T1(f: Mixing, s: seq<word>, k: word, w: word): word
    requires |s| == 8
  {
    Plus(Plus(Plus(Plus(s[7], f.bigSigma1(s[4])), f.ch(s[4], s[5], s[6])), k), w)
  }

  function T2(f: Mixing, s: seq<word>): word
    requires |s| == 8
  {
    Plus(f.bigSigma0(s[0]), f.maj(s[0], s[1], s[2]))
  }

  function Shifted(s: seq<word>, t1: word, t2: word): (r: seq<word>)
    requires |s| == 8
    ensures |r| == 8
  {
    [Plus(t1, t2), s[0], s[1], s[2], Plus(s[3], t1), s[4], s[5], s[6]]
  }

  /** One round on the working variables a to h. */
  function Round(f: Mixing, s: seq<word>, k: word, w: word): (r: seq<word>)
    requires |s| == 8
    ensures |r| == 8
  {
    Shifted(s, T1(f, s, k, w), T2(f, s))
  }

  /** The working variables after the first t rounds. */
  ghost function Rounds(f: Mixing, h: seq<word>, block: seq<byte>, t: nat): (s: seq<word>)
    requires |h| == 8 && |block| == 64 && t <= 64
    ensures |s| == 8
  {
    if t == 0 then h else Round(f, Rounds(f, h, block, t - 1), K[t - 1], W(f, block, t - 1))
  }

  /** Word by word sums. */
  function Sums(x: seq<word>, y: seq<word>): (z: seq<word>)
    requires |x| == |y|
    ensures |z| == |x| && forall k :: 0 <= k < |x| ==> z[k] == Plus(x[k], y[k])
  {
    if x == [] then [] else Sums(x[..|x| - 1], y[..|x| - 1]) + [Plus(x[|x| - 1], y[|x| - 1])]
  }

  /** The hash value after one more block. */
  ghost function Compress(f: Mixing, h: seq<word>, block: seq<byte>): (r: seq<word>)
    requires |h| == 8 && |block| == 64
    ensures |r| == 8
  {
    Sums(h, Rounds(f, h, block, 64))
  }

  /** The hash value after all blocks of a message of whole blocks. */
  ghost function HashBlocks(f: Mixing, m: seq<byte>): (h: seq<word>)
    requires |m| % 64 == 0
    ensures |h| == 8
  {
    if m == [] then IV else Compress(f, HashBlocks(f, m[..|m| - 64]), m[|m| - 64..])
  }

  function Power256(n: nat): (p: nat)
    ensures p > 0
  {
    if n == 0 then 1 else 256 * Power256(n - 1)
  }

  function ByteOf(n: nat): byte {
    n % 256
  }

  /** n as width big-endian bytes. */
  function BigEndian(n: nat, width: nat): (b: seq<byte>)
    ensures |b| == width
  {
    if width == 0 then [] else BigEndian(n / 256, width - 1) + [ByteOf(n)]
  }

  /** The number that bytes stand for, the most significant first. */
  function ValueOf(bytes: seq<byte>): nat {
    if bytes == [] then 0 else 256 * ValueOf(bytes[..|bytes| - 1]) + bytes[|bytes| - 1]
  }

  function Zeros(n: nat): (z: seq<byte>)
    ensures |z| == n
  {
    seq(n, _ => 0)
  }

  /** The number of zero bytes between the 0x80 and the length: the least that fills the last block. */
  function ZeroCount(len: nat): (z: nat)
    ensures z < 64 && (len + 1 + z + 8) % 64 == 0
  {
    (119 - len % 64) % 64
  }

  /** The padded message: a one bit, zeros, and the length in bits as 64 bits. */
  function Pad(m: seq<byte>): (p: seq<byte>)
    ensures |p| % 64 == 0
  {
    PadWith(m, ZeroCount(|m|), BigEndian(8 * |m|, 8))
  }

  function PadWith(m: seq<byte>, zeros: nat, length: seq<byte>): (p: seq<byte>)
    ensures |p| == |m| + 1 + zeros + |length|
  {
    m + [0x80] + Zeros(zeros) + length
  }

  /** The four big-endian bytes of a word. */
  function WordBytes(x: word): seq<byte> {
    [x / 0x100_0000, x / 0x1_0000 % 0x100, x / 0x100 % 0x100, x % 0x100]
  }

  function DigestBytes(h: seq<word>): (d: seq<byte>)
    ensures |d| == 4 * |h|
  {
    if h == [] then [] else DigestBytes(h[..|h| - 1]) + WordBytes(h[|h| - 1])
  }

  /** The digest of a message of fewer than 2^61 bytes. */
  ghost function Digest(f: Mixing, m: seq<byte>): (d: seq<byte>)
    ensures |d| == 32
  {
    DigestBytes(HashBlocks(f, Pad(m)))
  }

  /** The functions of the standard. */
  const FIPS: Mixing := Mixing(Ch, Maj, BigSigma0, BigSigma1, SmallSigma0, SmallSigma1)
}

/** The adapter that feeds bit vectors of the Sail model to the SHA-256 engine and reads the digest back
    as a 256-bit vector. */
module ShaAdapter {
  import opened Words
  import opened Sha256Spec
  import opened Sha256Engine

  // ----- integers and bytes

  /** The bytes of a positive integer, most significant first and none to spare; no byte for zero. */
  function Exported(n: nat): seq<byte> {
    if n == 0 then [] else Exported(n / 256) + [ByteOf(n)]
  }

  lemma {:induction false} PowerStep(n: nat, width: nat)
    requires width > 0 && n < Power256(width)
    ensures n / 256 < Power256(width - 1)
  {
  }

  /** Zero bytes in front of the exported ones make the fixed-width big-endian form. */
  lemma {:induction false} ExportedPadded(n: nat, width: nat)
    requires n < Power256(width)
    ensures |Exported(n)| <= width
    ensures Zeros(width - |Exported(n)|) + Exported(n) == BigEndian(n, width)
    decreases width
  {
    if width > 0 {
      PowerStep(n, width);
      ExportedPadded(n / 256, width - 1);
      if n == 0 {
        assert Zeros(width) == Zeros(width - 1) + [0];
        assert Zeros(width - 1) + [] == Zeros(width - 1);
      } else {
        var front := Exported(n / 256);
        assert Zeros(width - 1 - |front|) + (front + [ByteOf(n)]) == Zeros(width - 1 - |front|) + front + [ByteOf(n)];
      }
    }
  }

  lemma {:induction false} ImportedFits(b: seq<byte>)
    ensures ValueOf(b) < Power256(|b|)
  {
    if b != [] {
      ImportedFits(b[..|b| - 1]);
    }
  }

  /** Reading back the fixed-width form gives the integer, and equal integers come from equal bytes. */
  lemma {:induction false} ImportedBigEndian(n: nat, width: nat)
    requires n < Power256(width)
    ensures ValueOf(BigEndian(n, width)) == n
    decreases width
  {
    if width > 0 {
      PowerStep(n, width);
      ImportedBigEndian(n / 256, width - 1);
      assert BigEndian(n, width)[..width - 1] == BigEndian(n / 256, width - 1);
    }
  }

  lemma {:induction false} BigEndianImported(b: seq<byte>)
    ensures BigEndian(ValueOf(b), |b|) == b
  {
    if b != [] {
      BigEndianImported(b[..|b| - 1]);
    }
  }

  /** Digests that differ are read back as different vectors. */
  lemma ImportedInjective(b: seq<byte>, c: seq<byte>)
    requires |b| == |c| && ValueOf(b) == ValueOf(c)
    ensures b == c
  {
    BigEndianImported(b);
    BigEndianImported(c);
  }

  // ----- the adapter

  /** A vector of len bits; the value has no bit above them. */
  datatype LBits = LBits(len: nat, bits: nat)

  ghost predicate IsVector(v: LBits) {
    v.len % 8 == 0 && v.bits < Power256(v.len / 8)
  }

  /** The fixed-width form of a vector. */
  function Encoding(v: LBits): seq<byte> {
    BigEndian(v.bits, v.len / 8)
  }

  /** It has as many bytes as the vector, and they stand for its value. */
  lemma EncodingIs(v: LBits)
    requires IsVector(v)
    ensures 8 * |Encoding(v)| == v.len && ValueOf(Encoding(v)) == v.bits
  {
    ImportedBigEndian(v.bits, v.len / 8);
  }

  function Encodings(vs: seq<LBits>): seq<byte> {
    if vs == [] then [] else Encodings(vs[..|vs| - 1]) + Encoding(vs[|vs| - 1])
  }

  class Adapter {
    const hash: array<byte>
    const sha: Engine

    constructor (f: Mixing)
      ensures sha.f == f && fresh(hash) && fresh(sha) && fresh(sha.h) && fresh(sha.chunk)
      ensures Valid() && sha.Streaming() && sha.msg == []
    {
      var h := new byte[32];
      hash := h;
      sha := new Engine(f, h);
    }

    ghost predicate Valid()
      reads this, sha
    {
      sha.hash == hash && sha.Valid()
    }

    /** SHA256_reset. */
    method Reset()
      requires Valid()
      modifies sha, sha.h
      ensures Valid() && sha.Streaming() && sha.msg == []
    {
      sha.Init();
    }

    /** SHA256_append: leading zero bytes first, then the exported ones. */
    method Append(v: LBits)
      requires Valid() && sha.Streaming() && IsVector(v)
      modifies sha, sha.h, sha.chunk
      ensures Valid() && sha.Streaming() && sha.msg == old(sha.msg) + Encoding(v)
    {
      var nbBytes := (v.len + 7) / 8;
      assert nbBytes == v.len / 8;
      ExportedPadded(v.bits, nbBytes);
      var exported := Exported(v.bits);
      var leading := nbBytes - |exported|;
      ghost var m := sha.msg;
      if leading > 0 {
        WritePiece(sha, Zeros(leading));
      } else {
        assert m + Zeros(0) == m;
      }
      WritePiece(sha, exported);
      assert m + Zeros(leading) + exported == m + (Zeros(leading) + exported);
    }

    /** SHA256_finish: the digest as one 256-bit integer. */
    method Finish() returns (rop: LBits)
      requires Valid() && sha.Streaming()
      modifies sha.h, sha.chunk, sha.hash, sha`chain
      ensures rop.len == 256 && rop.bits == ValueOf(Digest(sha.f, sha.msg))
      ensures BigEndian(rop.bits, 32) == Digest(sha.f, sha.msg)
    {
      var out := sha.Close();
      Normalized(out[..]);
      rop := LBits(256, ValueOf(out[..]) % TWO256);
    }
  }

  /** Cutting the integer of a digest to 256 bits changes nothing. */
  lemma Normalized(digest: seq<byte>)
    requires |digest| == 32
    ensures ValueOf(digest) % TWO256 == ValueOf(digest) && BigEndian(ValueOf(digest), 32) == digest
  {
    ImportedFits(digest);
    Power256Of32();
    BigEndianImported(digest);
  }

  const TWO256: nat := 0x1_0000000000000000_0000000000000000_0000000000000000_0000000000000000

  lemma Power256Of32()
    ensures Power256(32) == TWO256
  {
    assert Power256(8) == 0x1_0000000000000000;
    assert Power256(16) == 0x1_0000000000000000_0000000000000000;
    assert Power256(24) == 0x1_0000000000000000_0000000000000000_0000000000000000;
  }

  method AppendAll(a: Adapter, vs: seq<LBits>)
    requires a.Valid() && a.sha.Streaming() && a.sha.msg == []
    requires forall i :: 0 <= i < |vs| ==> IsVector(vs[i])
    modifies a.sha, a.sha.h, a.sha.chunk
    ensures a.Valid() && a.sha.Streaming() && a.sha.msg == Encodings(vs)
  {
    var i := 0;
    while i < |vs|
      invariant 0 <= i <= |vs| && a.Valid() && a.sha.Streaming()
      invariant a.sha.msg == Encodings(vs[..i])
    {
      a.Append(vs[i]);
      assert vs[..i + 1][..i] == vs[..i];
      i := i + 1;
    }
    assert vs[..|vs|] == vs;
  }

  /** Any sequence of vectors, zero and leading zero bytes included, gives the digest of their
      fixed-width forms put together. */
  method HashVectors(a: Adapter, vs: seq<LBits>) returns (rop: LBits)
    requires a.Valid() && forall i :: 0 <= i < |vs| ==> IsVector(vs[i])
    modifies a.sha, a.sha.h, a.sha.chunk, a.hash
    ensures rop.len == 256 && BigEndian(rop.bits, 32) == Digest(a.sha.f, Encodings(vs))
  {
    a.Reset();
    AppendAll(a, vs);
    rop := a.Finish();
  }
}

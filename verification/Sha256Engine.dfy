/** The streaming SHA-256 engine: a one-block buffer that whole blocks of input bypass, and the
    padding on close. For every message, cut into writes in any way, the result is its digest. */
module Sha256Engine {
  import opened Words
  import opened Sha256Spec
  import opened Sha256Block

  const CHUNK: nat := 64
  const TOTAL_LEN_LEN: nat := 8
  const SIZE_LIMIT: nat := 0x1_0000_0000_0000_0000

  // ----- blocks and padding

  /** The hash values after each of the blocks of m, the initial one first. */
  ghost predicate IsChain(f: Mixing, chain: seq<seq<word>>, m: seq<byte>) {
    && 0 < |chain| && |m| == 64 * (|chain| - 1)
    && chain[0] == IV
    && (forall i {:trigger IsLink(f, chain, m, i)} :: 0 <= i < |chain| - 1 ==> IsLink(f, chain, m, i))
  }

  ghost predicate IsLink(f: Mixing, chain: seq<seq<word>>, m: seq<byte>, i: nat)
    requires 0 <= i < |chain| - 1 && |m| == 64 * (|chain| - 1)
  {
    && |chain[i]| == 8
    && chain[i + 1] == Compress(f, chain[i], m[64 * i..64 * i + 64])
  }

  lemma {:induction false} ChainIsHash(f: Mixing, chain: seq<seq<word>>, m: seq<byte>)
    requires IsChain(f, chain, m)
    ensures |m| % 64 == 0 && chain[|chain| - 1] == HashBlocks(f, m)
    decreases |m|
  {
    if m != [] {
      var chain', m' := chain[..|chain| - 1], m[..|m| - 64];
      forall i | 0 <= i < |chain'| - 1 ensures IsLink(f, chain', m', i) {
        assert IsLink(f, chain, m, i);
        assert m'[64 * i..64 * i + 64] == m[64 * i..64 * i + 64];
      }
      ChainIsHash(f, chain', m');
      assert IsLink(f, chain, m, |chain| - 2);
      assert m[|m| - 64..] == m[64 * (|chain| - 2)..64 * (|chain| - 2) + 64];
    }
  }

  lemma ChainOneMore(f: Mixing, chain: seq<seq<word>>, m: seq<byte>, block: seq<byte>, h: seq<word>)
    requires IsChain(f, chain, m) && |block| == 64 && |chain[|chain| - 1]| == 8
    requires h == Compress(f, chain[|chain| - 1], block)
    ensures IsChain(f, chain + [h], m + block)
  {
    var chain', m', n := chain + [h], m + block, |chain| - 1;
    forall i | 0 <= i < |chain'| - 1 ensures IsLink(f, chain', m', i) {
      if i < n {
        assert IsLink(f, chain, m, i);
        assert m'[64 * i..64 * i + 64] == m[64 * i..64 * i + 64];
      } else {
        assert m'[64 * n..64 * n + 64] == block;
      }
    }
  }

  lemma ZeroCountOfTail(len: nat, k: nat)
    requires k % 64 == 0 && k <= len < k + 64
    ensures len % 64 == len - k
    ensures ZeroCount(len) == if len - k <= 55 then 55 - (len - k) else 119 - (len - k)
  {
  }

  /** A message with room for the length after its tail is padded within one block. */
  lemma PadWithin(whole: seq<byte>, tail: seq<byte>, length: seq<byte>)
    requires |tail| <= 55
    ensures PadWith(whole + tail, 55 - |tail|, length) == whole + (tail + [0x80] + Zeros(55 - |tail|) + length)
  {
  }

  /** Otherwise the padding takes one more block. */
  lemma PadAcross(whole: seq<byte>, tail: seq<byte>, length: seq<byte>)
    requires 56 <= |tail| < 64
    ensures PadWith(whole + tail, 119 - |tail|, length)
         == whole + (tail + [0x80] + Zeros(63 - |tail|)) + (Zeros(56) + length)
  {
    assert Zeros(119 - |tail|) == Zeros(63 - |tail|) + Zeros(56);
  }

  // ----- the length

  lemma {:induction false} BigEndianTruncates(n: nat, c: nat, width: nat)
    ensures BigEndian(n + c * Power256(width), width) == BigEndian(n, width)
  {
    if width > 0 {
      var p := c * Power256(width - 1);
      assert c * Power256(width) == 256 * p;
      assert (n + 256 * p) / 256 == n / 256 + p && (n + 256 * p) % 256 == n % 256;
      BigEndianTruncates(n / 256, c, width - 1);
    }
  }

  lemma LengthHigh(len: nat, total: nat, c: nat)
    requires len == total + c * SIZE_LIMIT
    ensures 8 * len / 256 == total / 32 + 8 * c * 0x100_0000_0000_0000 && 8 * len % 256 == 8 * total % 256
  {
  }

  lemma Power256Of7()
    ensures Power256(7) == 0x100_0000_0000_0000
  {
  }

  /** The length field does not see that the count of bytes wrapped. */
  lemma LengthField(len: nat, total: nat)
    requires total == len % SIZE_LIMIT
    ensures BigEndian(8 * len, 8) == BigEndian(total / 32, 7) + [8 * total % 256]
  {
    var c := len / SIZE_LIMIT;
    LengthHigh(len, total, c);
    Power256Of7();
    BigEndianTruncates(total / 32, 8 * c, 7);
  }

  lemma CountWraps(len: nat, more: nat)
    ensures (len % SIZE_LIMIT + more) % SIZE_LIMIT == (len + more) % SIZE_LIMIT
  {
  }

  // ----- byte buffers

  method CopyBytes(to: array<byte>, at: nat, from: array<byte>, start: nat, n: nat)
    requires to != from && at + n <= to.Length && start + n <= from.Length
    modifies to
    ensures to[..] == old(to[..at]) + from[start..start + n] + old(to[at + n..])
  {
    var i := 0;
    while i < n
      invariant 0 <= i <= n
      invariant to[..] == old(to[..at]) + from[start..start + i] + old(to[at + i..])
    {
      to[at + i] := from[start + i];
      i := i + 1;
    }
  }

  method ZeroFill(to: array<byte>, at: nat, n: nat)
    requires at + n <= to.Length
    modifies to
    ensures to[..] == old(to[..at]) + Zeros(n) + old(to[at + n..])
  {
    var i := 0;
    while i < n
      invariant 0 <= i <= n
      invariant to[..] == old(to[..at]) + Zeros(i) + old(to[at + i..])
    {
      to[at + i] := 0;
      i := i + 1;
    }
  }

  /** The length in bits, most significant byte first, from the count of bytes. */
  method PutLength(to: array<byte>, at: nat, total: nat)
    requires at + 8 == to.Length
    modifies to
    ensures to[..] == old(to[..at]) + (BigEndian(total / 32, 7) + [8 * total % 256])
  {
    to[at + 7] := 8 * total % 256;
    var len := total / 32;
    var i := 7;
    assert to[..] == old(to[..at + 7]) + BigEndian(len, 0) + [8 * total % 256];
    while i > 0
      invariant 0 <= i <= 7 && 0 <= len
      invariant to[..at + i] == old(to[..at + i])
      invariant BigEndian(len, i) + to[at + i..at + 7] == BigEndian(total / 32, 7)
      invariant to[at + 7] == 8 * total % 256
    {
      i := i - 1;
      ghost var rest := to[at + i + 1..at + 7];
      to[at + i] := len % 256;
      assert to[at + i..at + 7] == [len % 256] + rest;
      assert BigEndian(len, i + 1) + rest == BigEndian(len / 256, i) + ([len % 256] + rest);
      len := len / 256;
    }
  }

  /** The hash value as bytes, most significant first. */
  method PutDigest(to: array<byte>, h: array<word>)
    requires to.Length == 32 && h.Length == 8
    modifies to
    ensures to[..] == DigestBytes(h[..])
  {
    var i := 0;
    while i < 8
      invariant 0 <= i <= 8 && to[..4 * i] == DigestBytes(h[..i])
    {
      ghost var done := to[..4 * i];
      PutWord(to, 4 * i, h[i]);
      assert h[..i + 1][..i] == h[..i];
      assert to[..4 * (i + 1)] == done + WordBytes(h[i]);
      i := i + 1;
    }
    assert to[..32] == to[..] && h[..8] == h[..];
  }

  method PutWord(to: array<byte>, at: nat, x: word)
    requires at + 4 <= to.Length
    modifies to
    ensures to[..] == old(to[..at]) + WordBytes(x) + old(to[at + 4..])
  {
    to[at] := x / 0x100_0000;
    to[at + 1] := x / 0x1_0000 % 0x100;
    to[at + 2] := x / 0x100 % 0x100;
    to[at + 3] := x % 0x100;
  }

  // ----- the engine

  class Engine {
    const f: Mixing
    const h: array<word>
    const chunk: array<byte>
    const hash: array<byte>
    var chunkPos: nat
    var spaceLeft: nat
    var totalLen: nat
    /** Everything written since the last Init, and the hash values after each of its whole blocks. */
    ghost var msg: seq<byte>
    ghost var chain: seq<seq<word>>

    constructor (f: Mixing, hash: array<byte>)
      requires hash.Length == 32
      ensures Streaming() && msg == [] && this.f == f && this.hash == hash
      ensures fresh(h) && fresh(chunk)
    {
      this.f := f;
      this.h := new word[8];
      this.chunk := new byte[CHUNK];
      this.hash := hash;
      new;
      Init();
    }

    ghost predicate Valid()
      reads this
    {
      h.Length == 8 && chunk.Length == CHUNK && hash.Length == 32 && hash != chunk
    }

    /** The hash value is that of m, a message of whole blocks. */
    ghost predicate Hashed(m: seq<byte>)
      reads this, h
    {
      h.Length == 8 && IsChain(f, chain, m) && h[..] == chain[|chain| - 1]
    }

    /** The hash value covers the whole blocks of m and the buffer holds the rest, less than a block. */
    ghost predicate Holds(m: seq<byte>)
      reads this, h, chunk
    {
      && Valid()
      && 1 <= spaceLeft <= CHUNK && chunkPos == CHUNK - spaceLeft && chunkPos <= |m|
      && Hashed(m[..|m| - chunkPos])
      && chunk[..chunkPos] == m[|m| - chunkPos..]
    }

    /** The invariant between calls. */
    ghost predicate Streaming()
      reads this, h, chunk
    {
      Holds(msg) && totalLen == |msg| % SIZE_LIMIT
    }

    method Init()
      requires Valid()
      modifies this, h
      ensures Streaming() && msg == []
    {
      chunkPos := 0;
      spaceLeft := CHUNK;
      totalLen := 0;
      msg := [];
      chain := [IV];
      h[0], h[1], h[2], h[3] := 0x6a09e667, 0xbb67ae85, 0x3c6ef372, 0xa54ff53a;
      h[4], h[5], h[6], h[7] := 0x510e527f, 0x9b05688c, 0x1f83d9ab, 0x5be0cd19;
      assert h[..] == IV;
    }

    method Write(data: array<byte>, len: nat)
      requires Streaming() && len <= data.Length && data != chunk
      modifies this, h, chunk
      ensures Streaming() && msg == old(msg) + data[..len]
    {
      totalLen := (totalLen + len) % SIZE_LIMIT;
      AbsorbAll(data, len);
      CountWraps(|msg|, len);
      msg := msg + data[..len];
    }

    method AbsorbAll(data: array<byte>, len: nat)
      requires Holds(msg) && len <= data.Length && data != chunk
      modifies h, chunk, this`spaceLeft, this`chunkPos, this`chain
      ensures Holds(msg + data[..len])
    {
      var p, rest := 0, len;
      ghost var m := msg;
      while rest > 0
        invariant 0 <= p <= len && p + rest == len && Holds(m) && m == msg + data[..p]
        decreases rest
      {
        var consumed := Absorb(data, p, rest, m);
        assert data[..p] + data[p..p + consumed] == data[..p + consumed];
        m := m + data[p..p + consumed];
        rest := rest - consumed;
        p := p + consumed;
      }
    }

    /** Whole blocks are consumed straight from the data when the buffer is empty; all else goes
        through the buffer. */
    method Absorb(data: array<byte>, p: nat, rest: nat, ghost m: seq<byte>) returns (consumed: nat)
      requires Holds(m) && 0 < rest && p + rest <= data.Length && data != chunk
      modifies h, chunk, this`spaceLeft, this`chunkPos, this`chain
      ensures 0 < consumed <= rest && Holds(m + data[p..p + consumed])
    {
      if spaceLeft == CHUNK && rest >= CHUNK {
        consumed := CHUNK;
        TakeBlock(data, p, m);
      } else {
        consumed := if rest < spaceLeft then rest else spaceLeft;
        Buffer(data, p, consumed, m);
      }
    }

    method Consume(data: array<byte>, p: nat, ghost whole: seq<byte>)
      requires p + CHUNK <= data.Length && Hashed(whole)
      modifies h, this`chain
      ensures Hashed(whole + data[p..p + CHUNK])
    {
      ConsumeChunk(f, h, data, p);
      ChainOneMore(f, chain, whole, data[p..p + CHUNK], h[..]);
      chain := chain + [h[..]];
    }

    method TakeBlock(data: array<byte>, p: nat, ghost m: seq<byte>)
      requires Holds(m) && spaceLeft == CHUNK && p + CHUNK <= data.Length
      modifies h, this`chain
      ensures Holds(m + data[p..p + CHUNK])
    {
      assert m[..|m|] == m;
      Consume(data, p, m);
      ghost var m' := m + data[p..p + CHUNK];
      assert m'[..|m'|] == m';
    }

    method Buffer(data: array<byte>, p: nat, n: nat, ghost m: seq<byte>)
      requires Holds(m) && 0 < n <= spaceLeft && p + n <= data.Length && data != chunk
      modifies h, chunk, this`spaceLeft, this`chunkPos, this`chain
      ensures Holds(m + data[p..p + n])
    {
      ghost var more, pos := data[p..p + n], chunkPos;
      ghost var whole, all := m[..|m| - pos], m + more;
      CopyBytes(chunk, chunkPos, data, p, n);
      assert all == whole + chunk[..pos + n] by {
        assert m == whole + m[|m| - pos..];
        assert chunk[..pos + n] == m[|m| - pos..] + more;
      }
      spaceLeft := spaceLeft - n;
      if spaceLeft == 0 {
        assert chunk[..pos + n] == chunk[..];
        TakeBuffer(whole);
        assert all[..|all| - 0] == all && chunk[..0] == all[|all|..];
      } else {
        chunkPos := chunkPos + n;
        assert all[..|all| - chunkPos] == whole && all[|all| - chunkPos..] == chunk[..chunkPos];
      }
    }

    /** Consumes the full buffer, which is empty again then. */
    method TakeBuffer(ghost whole: seq<byte>)
      requires Valid() && Hashed(whole)
      modifies h, this`spaceLeft, this`chunkPos, this`chain
      ensures Hashed(whole + chunk[..]) && chunkPos == 0 && spaceLeft == CHUNK
    {
      assert chunk[0..CHUNK] == chunk[..];
      Consume(chunk, 0, whole);
      chunkPos := 0;
      spaceLeft := CHUNK;
    }

    /** Pads, consumes the last one or two blocks and writes the digest. */
    method Close() returns (out: array<byte>)
      requires Streaming()
      modifies h, chunk, hash, this`chain
      ensures out == hash && out[..] == Digest(f, msg)
    {
      Finish();
      ChainIsHash(f, chain, Pad(msg));
      PutDigest(hash, h);
      out := hash;
    }

    method Finish()
      requires Streaming()
      modifies h, chunk, this`chain
      ensures Hashed(Pad(msg))
    {
      ghost var whole, tail := msg[..|msg| - chunkPos], msg[|msg| - chunkPos..];
      assert msg == whole + tail;
      ZeroCountOfTail(|msg|, |whole|);
      ghost var length := BigEndian(8 * |msg|, 8);
      var pos, space := chunkPos, spaceLeft;
      chunk[pos] := 0x80;
      pos := pos + 1;
      space := space - 1;
      assert chunk[..pos] == tail + [0x80];
      if space < TOTAL_LEN_LEN {
        ZeroFill(chunk, pos, space);
        assert chunk[0..CHUNK] == tail + [0x80] + Zeros(space);
        Consume(chunk, 0, whole);
        PadAcross(whole, tail, length);
        LastBlock(0, whole + (tail + [0x80] + Zeros(space)), [], length);
        assert [] + Zeros(56) == Zeros(56);
      } else {
        PadWithin(whole, tail, length);
        LastBlock(pos, whole, tail + [0x80], length);
      }
    }

    /** Zeros and the length after the first pos bytes of the buffer, which is then consumed. */
    method LastBlock(pos: nat, ghost whole: seq<byte>, ghost start: seq<byte>, ghost length: seq<byte>)
      requires Valid() && pos <= CHUNK - TOTAL_LEN_LEN && totalLen == |msg| % SIZE_LIMIT
      requires Hashed(whole) && chunk[..pos] == start && length == BigEndian(8 * |msg|, 8)
      modifies h, chunk, this`chain
      ensures Hashed(whole + (start + Zeros(56 - pos) + length))
    {
      var left := CHUNK - pos - TOTAL_LEN_LEN;
      FillLast(pos, left, start, length);
      Consume(chunk, 0, whole);
    }

    method FillLast(pos: nat, left: nat, ghost start: seq<byte>, ghost length: seq<byte>)
      requires Valid() && pos + left == CHUNK - TOTAL_LEN_LEN && totalLen == |msg| % SIZE_LIMIT
      requires chunk[..pos] == start && length == BigEndian(8 * |msg|, 8)
      modifies chunk
      ensures chunk[0..CHUNK] == start + Zeros(left) + length
    {
      ZeroFill(chunk, pos, left);
      assert chunk[..pos + left] == start + Zeros(left);
      LengthField(|msg|, totalLen);
      PutLength(chunk, pos + left, totalLen);
    }
  }

  /** The one-shot function. */
  method CalcSha256(f: Mixing, hash: array<byte>, input: array<byte>, len: nat)
    requires hash.Length == 32 && len <= input.Length
    modifies hash
    ensures hash[..] == Digest(f, old(input[..len]))
  {
    var sha := new Engine(f, hash);
    sha.Write(input, len);
    assert [] + input[..len] == input[..len];
    var _ := sha.Close();
  }

  /** With the functions of the standard it is SHA-256. */
  method Sha256(hash: array<byte>, input: array<byte>, len: nat)
    requires hash.Length == 32 && len <= input.Length
    modifies hash
    ensures hash[..] == Digest(FIPS, old(input[..len]))
  {
    CalcSha256(FIPS, hash, input, len);
  }

  ghost function Concat(pieces: seq<seq<byte>>): seq<byte> {
    if pieces == [] then [] else Concat(pieces[..|pieces| - 1]) + pieces[|pieces| - 1]
  }

  /** Any message, cut in any way, empty pieces included, hashes to the digest of the whole. */
  method HashPieces(f: Mixing, pieces: seq<seq<byte>>) returns (digest: seq<byte>)
    ensures digest == Digest(f, Concat(pieces))
  {
    var hash := new byte[32];
    var sha := new Engine(f, hash);
    WritePieces(sha, pieces);
    var out := sha.Close();
    digest := out[..];
  }

  method WritePieces(sha: Engine, pieces: seq<seq<byte>>)
    requires sha.Streaming() && sha.msg == []
    modifies sha, sha.h, sha.chunk
    ensures sha.Streaming() && sha.msg == Concat(pieces)
  {
    var i := 0;
    while i < |pieces|
      invariant 0 <= i <= |pieces| && sha.Streaming()
      invariant sha.msg == Concat(pieces[..i])
    {
      WritePiece(sha, pieces[i]);
      assert pieces[..i + 1][..i] == pieces[..i];
      i := i + 1;
    }
    assert pieces[..|pieces|] == pieces;
  }

  method WritePiece(sha: Engine, piece: seq<byte>)
    requires sha.Streaming()
    modifies sha, sha.h, sha.chunk
    ensures sha.Streaming() && sha.msg == old(sha.msg) + piece
  {
    var data := new byte[|piece|](k requires 0 <= k < |piece| => piece[k]);
    assert data[..data.Length] == piece;
    sha.Write(data, data.Length);
  }
}

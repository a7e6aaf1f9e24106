/** The compression of one block as the engine computes it: a 16-word window in place of the 64-word
    schedule, and working variables shifted along in place. */
module Sha256Block {
  import opened Words
  import opened Sha256Spec

  /** The schedule words of a block, as a sequence. */
  ghost predicate IsSchedule(f: Mixing, ws: seq<word>, block: seq<byte>)
    requires |block| == 64
  {
    && |ws| == 64
    && (forall t :: 0 <= t < 16 ==> IsLoaded(ws[t], block, t))
    && (forall t :: 16 <= t < 64 ==> IsExtended(f, ws, t))
  }

  ghost predicate IsLoaded(x: word, block: seq<byte>, t: nat)
    requires |block| == 64 && t < 16
  {
    x == BigEndianWord(block[4 * t], block[4 * t + 1], block[4 * t + 2], block[4 * t + 3])
  }

  ghost predicate IsExtended(f: Mixing, ws: seq<word>, t: nat)
    requires 16 <= t < |ws|
  {
    ws[t] == Plus(Plus(Plus(f.smallSigma1(ws[t - 2]), ws[t - 7]), f.smallSigma0(ws[t - 15])), ws[t - 16])
  }

  /** The working variables before and after each round. */
  ghost predicate IsTrace(f: Mixing, states: seq<seq<word>>, ws: seq<word>) {
    && |states| == 65 && |ws| == 64
    && (forall t :: 0 <= t < 65 ==> |states[t]| == 8)
    && (forall t :: 0 <= t < 64 ==> IsRound(f, states[t], t, ws[t], states[t + 1]))
  }

  ghost predicate IsRound(f: Mixing, s: seq<word>, t: nat, x: word, r: seq<word>)
    requires |s| == 8 && t < 64
  {
    r == Round(f, s, K[t], x)
  }

  /** The schedule and the rounds that the standard prescribes for a hash value and a block. */
  lemma Trace(f: Mixing, h: seq<word>, block: seq<byte>) returns (ws: seq<word>, states: seq<seq<word>>)
    requires |h| == 8 && |block| == 64
    ensures IsSchedule(f, ws, block) && IsTrace(f, states, ws) && states[0] == h
    ensures Compress(f, h, block) == Sums(h, states[64])
  {
    ws := seq(64, t requires 0 <= t < 64 => W(f, block, t));
    states := seq(65, t requires 0 <= t < 65 => Rounds(f, h, block, t));
    forall t | 0 <= t < 64 ensures IsRound(f, states[t], t, ws[t], states[t + 1]) {
      NextRound(f, h, block, t);
    }
  }

  lemma NextRound(f: Mixing, h: seq<word>, block: seq<byte>, t: nat)
    requires |h| == 8 && |block| == 64 && t < 64
    ensures IsRound(f, Rounds(f, h, block, t), t, W(f, block, t), Rounds(f, h, block, t + 1))
  {
  }

  /** The window before round 16 i + j: schedule words 16 i to 16 i + j - 1 in its first j places and,
      from the second pass on, the words 16 places earlier in the rest; the last 16 words in all. */
  ghost predicate IsWindow(w: seq<word>, ws: seq<word>, i: nat, j: nat)
    requires |w| == 16 && |ws| == 64 && i < 4 && j <= 16
  {
    && (forall p :: 0 <= p < j ==> w[p] == ws[16 * i + p])
    && (i > 0 ==> forall p :: j <= p < 16 ==> w[p] == ws[16 * i - 16 + p])
  }

  lemma WindowPlaces(w: seq<word>, ws: seq<word>, i: nat, j: nat)
    requires |w| == 16 && |ws| == 64 && 0 < i < 4 && j < 16 && IsWindow(w, ws, i, j)
    ensures w[j] == ws[16 * i + j - 16] && w[(j + 1) % 16] == ws[16 * i + j - 15]
    ensures w[(j + 9) % 16] == ws[16 * i + j - 7] && w[(j + 14) % 16] == ws[16 * i + j - 2]
  {
    Wrapped(w, ws, i, j, 1);
    Wrapped(w, ws, i, j, 9);
    Wrapped(w, ws, i, j, 14);
  }

  lemma Wrapped(w: seq<word>, ws: seq<word>, i: nat, j: nat, d: nat)
    requires |w| == 16 && |ws| == 64 && 0 < i < 4 && j < 16 && IsWindow(w, ws, i, j) && 0 < d < 16
    ensures w[(j + d) % 16] == ws[16 * i + j + d - 16]
  {
    if j + d < 16 {
      assert (j + d) % 16 == j + d;
    } else {
      var p := j + d - 16;
      assert (j + d) % 16 == p;
      assert w[p] == ws[16 * i + p];
    }
  }

  lemma SumInAnyOrder(a: word, b: word, c: word, d: word)
    ensures Plus(Plus(Plus(a, b), c), d) == Plus(Plus(Plus(d, c), b), a)
  {
  }

  /** The compression function on one block, in place on the hash value. */
  method ConsumeChunk(f: Mixing, h: array<word>, p: array<byte>, offset: nat)
    requires h.Length == 8 && offset + 64 <= p.Length
    modifies h
    ensures h[..] == Compress(f, old(h[..]), p[offset..offset + 64])
  {
    ghost var ws, states := Trace(f, h[..], p[offset..offset + 64]);
    AddRounds(f, h, p, offset, ws, states);
  }

  method AddRounds(f: Mixing, h: array<word>, p: array<byte>, offset: nat, ghost ws: seq<word>, ghost states: seq<seq<word>>)
    requires h.Length == 8 && offset + 64 <= p.Length
    requires IsSchedule(f, ws, p[offset..offset + 64]) && IsTrace(f, states, ws) && h[..] == states[0]
    modifies h
    ensures h[..] == Sums(old(h[..]), states[64])
  {
    var ah := new word[8];
    CopyWords(ah, h);
    MainLoop(f, ah, p, offset, ws, states);
    AddWords(h, ah);
  }

  method CopyWords(to: array<word>, from: array<word>)
    requires to.Length == from.Length && to != from
    modifies to
    ensures to[..] == from[..]
  {
    var i := 0;
    while i < to.Length
      invariant 0 <= i <= to.Length && to[..i] == from[..i]
    {
      to[i] := from[i];
      i := i + 1;
    }
  }

  /** Unsigned addition in 32 bits. */
  method AddWord(x: word, y: word) returns (z: word)
    ensures z == Plus(x, y)
  {
    PlusIsModular(x, y);
    z := (x + y) % 0x1_0000_0000;
  }

  method AddWords(h: array<word>, ah: array<word>)
    requires h.Length == ah.Length && h != ah
    modifies h
    ensures h[..] == Sums(old(h[..]), ah[..])
  {
    var i := 0;
    while i < h.Length
      invariant 0 <= i <= h.Length
      invariant forall k :: 0 <= k < i ==> h[k] == Plus(old(h[k]), ah[k])
      invariant forall k :: i <= k < h.Length ==> h[k] == old(h[k])
    {
      h[i] := AddWord(h[i], ah[i]);
      i := i + 1;
    }
  }

  /** All 64 rounds on the working variables, the schedule held sixteen words at a time. */
  method MainLoop(f: Mixing, ah: array<word>, p: array<byte>, offset: nat, ghost ws: seq<word>, ghost states: seq<seq<word>>)
    requires ah.Length == 8 && offset + 64 <= p.Length
    requires IsSchedule(f, ws, p[offset..offset + 64]) && IsTrace(f, states, ws) && ah[..] == states[0]
    modifies ah
    ensures ah[..] == states[64]
  {
    var w := new word[16];
    var i := 0;
    while i < 4
      invariant 0 <= i <= 4
      invariant 0 < i ==> IsWindow(w[..], ws, i - 1, 16)
      invariant ah[..] == states[16 * i]
    {
      NextPass(w[..], ws, i);
      SixteenRounds(f, ah, w, p, offset, i, ws, states);
      i := i + 1;
    }
  }

  lemma NextPass(w: seq<word>, ws: seq<word>, i: nat)
    requires |w| == 16 && |ws| == 64 && i < 4
    requires 0 < i ==> IsWindow(w, ws, i - 1, 16)
    ensures IsWindow(w, ws, i, 0)
  {
    if 0 < i {
      forall p | 0 <= p < 16 ensures w[p] == ws[16 * i - 16 + p] {
        assert w[p] == ws[16 * (i - 1) + p];
      }
    }
  }

  method SixteenRounds(f: Mixing, ah: array<word>, w: array<word>, p: array<byte>, offset: nat, i: nat,
      ghost ws: seq<word>, ghost states: seq<seq<word>>)
    requires ah.Length == 8 && w.Length == 16 && offset + 64 <= p.Length && ah != w && i < 4
    requires IsSchedule(f, ws, p[offset..offset + 64]) && IsTrace(f, states, ws)
    requires IsWindow(w[..], ws, i, 0) && ah[..] == states[16 * i]
    modifies ah, w
    ensures IsWindow(w[..], ws, i, 16) && ah[..] == states[16 * i + 16]
  {
    var j := 0;
    while j < 16
      invariant 0 <= j <= 16
      invariant IsWindow(w[..], ws, i, j)
      invariant ah[..] == states[16 * i + j]
    {
      ScheduleWord(f, w, p, offset, i, j, ws);
      RoundInPlace(f, ah, K[16 * i + j], w[j]);
      assert IsRound(f, states[16 * i + j], 16 * i + j, ws[16 * i + j], states[16 * i + j + 1]);
      j := j + 1;
    }
  }

  /** Puts schedule word 16 i + j into the window: loaded from the block, or extended. */
  method ScheduleWord(f: Mixing, w: array<word>, p: array<byte>, offset: nat, i: nat, j: nat, ghost ws: seq<word>)
    requires w.Length == 16 && offset + 64 <= p.Length && i < 4 && j < 16
    requires IsSchedule(f, ws, p[offset..offset + 64]) && IsWindow(w[..], ws, i, j)
    modifies w
    ensures IsWindow(w[..], ws, i, j + 1) && w[j] == ws[16 * i + j]
  {
    ghost var w0 := w[..];
    if i == 0 {
      var q := offset + 4 * j;
      w[j] := BigEndianWord(p[q], p[q + 1], p[q + 2], p[q + 3]);
      assert IsLoaded(ws[j], p[offset..offset + 64], j);
    } else {
      WindowPlaces(w[..], ws, i, j);
      var s0 := f.smallSigma0(w[(j + 1) % 16]);
      var s1 := f.smallSigma1(w[(j + 14) % 16]);
      SumInAnyOrder(w[j], s0, w[(j + 9) % 16], s1);
      w[j] := Plus(Plus(Plus(w[j], s0), w[(j + 9) % 16]), s1);
      assert IsExtended(f, ws, 16 * i + j);
    }
    assert w[..] == w0[j := w[j]];
  }

  /** One round on the working variables. */
  method RoundInPlace(f: Mixing, ah: array<word>, k: word, w: word)
    requires ah.Length == 8
    modifies ah
    ensures ah[..] == Round(f, old(ah[..]), k, w)
  {
    var s1 := f.bigSigma1(ah[4]);
    var ch := f.ch(ah[4], ah[5], ah[6]);
    var temp1 := Plus(Plus(Plus(Plus(ah[7], s1), ch), k), w);
    var s0 := f.bigSigma0(ah[0]);
    var maj := f.maj(ah[0], ah[1], ah[2]);
    var temp2 := Plus(s0, maj);
    ShiftAlong(ah, temp1, temp2);
  }

  /** Moves the working variables one place along, in place. */
  method ShiftAlong(ah: array<word>, temp1: word, temp2: word)
    requires ah.Length == 8
    modifies ah
    ensures ah[..] == Shifted(old(ah[..]), temp1, temp2)
  {
    ah[7] := ah[6];
    ah[6] := ah[5];
    ah[5] := ah[4];
    ah[4] := Plus(ah[3], temp1);
    ah[3] := ah[2];
    ah[2] := ah[1];
    ah[1] := ah[0];
    ah[0] := Plus(temp1, temp2);
  }
}

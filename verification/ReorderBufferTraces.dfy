/** Whole input traces of the reorder buffer: packets leave in the order 0, 1, 2, ..., each of them came
    in under that number, and none is lost or doubled. */
module ReorderBufferTraces {
  import opened PowersOfTwo
  import opened ReorderBuffer

  // ----- how often a packet is held, carried and delivered

  function One(b: bool): nat {
    if b then 1 else 0
  }

  /** How many of the first n slots are in use and hold q. */
  function Held(s: State, n: nat, q: Packet): nat
    requires Valid(s) && n <= |s.valid|
  {
    if n == 0 then 0 else Held(s, n - 1, q) + One(s.valid[n - 1] && s.buffer[n - 1] == q)
  }

  function Buffered(s: State, q: Packet): nat
    requires Valid(s)
  {
    Held(s, |s.valid|, q)
  }

  /** How many of the first n channels carry q in. */
  function Carried(ports: seq<Port>, n: nat, q: Packet): nat
    requires n <= |ports|
  {
    if n == 0 then 0 else Carried(ports, n - 1, q) + One(ports[n - 1] == Carries(q))
  }

  function Times(out: seq<Packet>, q: Packet): nat {
    if out == [] then 0 else Times(out[..|out| - 1], q) + One(out[|out| - 1] == q)
  }

  lemma {:induction false} TimesOfSum(a: seq<Packet>, b: seq<Packet>, q: Packet)
    ensures Times(a + b, q) == Times(a, q) + Times(b, q)
    decreases |b|
  {
    if b == [] {
      assert a + b == a;
    } else {
      assert (a + b)[..|a + b| - 1] == a + b[..|b| - 1];
      TimesOfSum(a, b[..|b| - 1], q);
    }
  }

  lemma {:induction false} TimesPositive(out: seq<Packet>, j: nat)
    requires j < |out|
    ensures Times(out, out[j]) > 0
    decreases |out|
  {
    if j < |out| - 1 {
      TimesPositive(out[..|out| - 1], j);
    }
  }

  lemma {:induction false} HeldSame(s: State, r: State, n: nat, q: Packet)
    requires Valid(s) && Valid(r) && |s.valid| == |r.valid| && n <= |s.valid|
    requires forall i :: 0 <= i < n ==> s.valid[i] == r.valid[i] && s.buffer[i] == r.buffer[i]
    ensures Held(s, n, q) == Held(r, n, q)
  {
    if n > 0 {
      HeldSame(s, r, n - 1, q);
    }
  }

  /** States that differ in one slot differ by what that slot holds. */
  lemma {:induction false} HeldChange(s: State, r: State, k: nat, n: nat, q: Packet)
    requires Valid(s) && Valid(r) && |s.valid| == |r.valid| && k < n <= |s.valid|
    requires forall i :: 0 <= i < n && i != k ==> s.valid[i] == r.valid[i] && s.buffer[i] == r.buffer[i]
    ensures Held(r, n, q) + One(s.valid[k] && s.buffer[k] == q)
         == Held(s, n, q) + One(r.valid[k] && r.buffer[k] == q)
  {
    if n - 1 == k {
      HeldSame(s, r, k, q);
    } else {
      HeldChange(s, r, k, n - 1, q);
    }
  }

  // ----- packets coming in

  /** The packets of one cycle use different slots. */
  ghost predicate Distinct(ports: seq<Port>, depth: nat)
    requires depth > 0
  {
    forall b, c :: 0 <= b < c < |ports| && ports[b].Carries? && ports[c].Carries? ==>
      SlotOf(ports[b], depth) != SlotOf(ports[c], depth)
  }

  function SlotOf(port: Port, depth: nat): (k: nat)
    requires port.Carries? && depth > 0
    ensures k < depth
  {
    Slot(port.packet.order, depth)
  }

  ghost predicate NoCollision(s: State, ports: seq<Port>)
    requires Valid(s)
  {
    forall c :: 0 <= c < |ports| ==> !Collides(s, ports[c])
  }

  /** Every packet in use is in the slot of its number. */
  ghost predicate InPlace(s: State)
    requires Valid(s)
  {
    forall k :: 0 <= k < |s.valid| && s.valid[k] ==> Slot(s.buffer[k].order, |s.valid|) == k
  }

  /** What was in use stays, and what came in is in place. */
  lemma {:induction false} AcceptKeeps(s: State, ports: seq<Port>, n: nat)
    requires Valid(s) && InPlace(s) && NoCollision(s, ports) && n <= |ports|
    ensures var r := Accept(s, ports, n);
      && InPlace(r)
      && (forall k :: 0 <= k < |s.valid| && s.valid[k] ==> r.valid[k] && r.buffer[k] == s.buffer[k])
  {
    if n > 0 {
      AcceptKeeps(s, ports, n - 1);
      assert !Collides(s, ports[n - 1]);
    }
  }

  /** A slot in use after some packets was in use before them or is the slot of one of them. */
  lemma {:induction false} InUseAfter(s: State, ports: seq<Port>, n: nat, k: nat)
    requires Valid(s) && n <= |ports| && k < |s.valid| && Accept(s, ports, n).valid[k] && !s.valid[k]
    ensures exists c :: 0 <= c < n && ports[c].Carries? && SlotOf(ports[c], |s.valid|) == k
  {
    if n > 0 && !(ports[n - 1].Carries? && SlotOf(ports[n - 1], |s.valid|) == k) {
      InUseAfter(s, ports, n - 1, k);
    }
  }

  /** Packets that come in are held, all of them if no two of the cycle share a slot. */
  lemma {:induction false} AcceptCounts(s: State, ports: seq<Port>, n: nat, q: Packet)
    requires Valid(s) && NoCollision(s, ports) && n <= |ports|
    ensures Buffered(Accept(s, ports, n), q) <= Buffered(s, q) + Carried(ports, n, q)
    ensures Distinct(ports, |s.valid|) ==>
      Buffered(Accept(s, ports, n), q) == Buffered(s, q) + Carried(ports, n, q)
  {
    if n > 0 {
      AcceptCounts(s, ports, n - 1, q);
      var r := Accept(s, ports, n - 1);
      if ports[n - 1].Carries? {
        var k := SlotOf(ports[n - 1], |s.valid|);
        assert !Collides(s, ports[n - 1]);
        HeldChange(r, Accept(s, ports, n), k, |s.valid|, q);
        if Distinct(ports, |s.valid|) && r.valid[k] {
          InUseAfter(s, ports, n - 1, k);
        }
      }
    }
  }

  lemma {:induction false} StaysInUse(s: State, ports: seq<Port>, b: nat, n: nat)
    requires Valid(s) && b < n <= |ports| && ports[b].Carries?
    ensures Accept(s, ports, n).valid[SlotOf(ports[b], |s.valid|)]
  {
    if b < n - 1 {
      StaysInUse(s, ports, b, n - 1);
    }
  }

  lemma {:induction false} LossStays(s: State, ports: seq<Port>, m: nat, n: nat, q: Packet)
    requires Valid(s) && m <= n <= |ports|
    requires Buffered(Accept(s, ports, m), q) < Buffered(s, q) + Carried(ports, m, q)
    ensures Buffered(Accept(s, ports, n), q) < Buffered(s, q) + Carried(ports, n, q)
  {
    if m < n {
      LossStays(s, ports, m, n - 1, q);
      if ports[n - 1].Carries? {
        HeldChange(Accept(s, ports, n - 1), Accept(s, ports, n), SlotOf(ports[n - 1], |s.valid|), |s.valid|, q);
      }
    }
  }

  /** Two packets of one cycle for the same slot: no error, and the earlier one is lost. */
  lemma {:induction false} SharedSlotLoses(s: State, ports: seq<Port>, b: nat, c: nat) returns (q: Packet)
    requires Valid(s) && NoCollision(s, ports) && b < c < |ports| && ports[b].Carries? && ports[c].Carries?
    requires SlotOf(ports[b], |s.valid|) == SlotOf(ports[c], |s.valid|)
    ensures Buffered(Accept(s, ports, |ports|), q) < Buffered(s, q) + Carried(ports, |ports|, q)
  {
    var k := SlotOf(ports[c], |s.valid|);
    StaysInUse(s, ports, b, c);
    q := Accept(s, ports, c).buffer[k];
    AcceptCounts(s, ports, c, q);
    HeldChange(Accept(s, ports, c), Accept(s, ports, c + 1), k, |s.valid|, q);
    LossStays(s, ports, c + 1, |ports|, q);
  }

  /** Without a collision an edge takes in every packet exactly when they use different slots. */
  lemma {:induction false} AllTakenIffDistinct(s: State, ports: seq<Port>)
    requires Valid(s) && NoCollision(s, ports)
    ensures Distinct(ports, |s.valid|) <==>
      forall q :: Buffered(Accept(s, ports, |ports|), q) == Buffered(s, q) + Carried(ports, |ports|, q)
  {
    if Distinct(ports, |s.valid|) {
      forall q ensures Buffered(Accept(s, ports, |ports|), q) == Buffered(s, q) + Carried(ports, |ports|, q) {
        AcceptCounts(s, ports, |ports|, q);
      }
    } else {
      var b, c :| 0 <= b < c < |ports| && ports[b].Carries? && ports[c].Carries?
        && SlotOf(ports[b], |s.valid|) == SlotOf(ports[c], |s.valid|);
      var q := SharedSlotLoses(s, ports, b, c);
    }
  }

  // ----- packets going out

  lemma {:induction false} TurnsDiffer(cursor: order, i: nat, j: nat, depth: nat)
    requires IsDepth(depth) && i < j < depth
    ensures Slot(CursorAfter(cursor, i), depth) != Slot(CursorAfter(cursor, j), depth)
  {
    ModOfMod(cursor + i, ORDERS, depth);
    ModOfMod(cursor + j, ORDERS, depth);
    ResiduesDiffer(cursor + i, j - i, depth);
  }

  lemma ResiduesDiffer(x: nat, d: nat, depth: nat)
    requires 0 < d < depth
    ensures x % depth != (x + d) % depth
  {
    DivMod(x, depth);
    DivMod(x + d, depth);
    if x % depth == (x + d) % depth {
      MultiplesApart((x + d) / depth, x / depth, depth);
    }
  }

  /** The slots whose turn it is hold in r what they held in s. */
  ghost predicate Waiting(s: State, r: State, e: nat)
    requires Valid(s) && Valid(r) && |r.valid| == |s.valid|
  {
    forall j :: 0 <= j < e ==> r.valid[Turn(s, j)] && r.buffer[Turn(s, j)] == s.buffer[Turn(s, j)]
  }

  /** Only the slots whose turn it is are given up. */
  lemma {:induction false} ReleaseKeeps(s: State, r: State, e: nat, k: nat)
    requires Valid(s) && Valid(r) && |r.valid| == |s.valid| && k < |s.valid|
    requires forall j :: 0 <= j < e ==> Turn(s, j) != k
    ensures Release(r, s.cursor, e).valid[k] == r.valid[k]
  {
    if e > 0 {
      ReleaseKeeps(s, r, e - 1, k);
      assert Turn(s, e - 1) != k;
    }
  }

  lemma {:induction false} ReleaseOnly(r: State, cursor: order, e: nat, k: nat)
    requires Valid(r) && k < |r.valid| && Release(r, cursor, e).valid[k]
    ensures r.valid[k]
  {
    if e > 0 {
      ReleaseOnly(r, cursor, e - 1, k);
    }
  }

  /** Giving up the first e slots takes exactly their packets out. */
  lemma {:induction false} ReleaseCounts(s: State, r: State, e: nat, q: Packet)
    requires Valid(s) && Valid(r) && |r.valid| == |s.valid| && e <= |s.valid| && Waiting(s, r, e)
    ensures Buffered(Release(r, s.cursor, e), q) + Times(Leaving(s, e), q) == Buffered(r, q)
  {
    if e == 0 {
      HeldSame(r, Release(r, s.cursor, 0), |r.valid|, q);
    } else {
      ReleaseCounts(s, r, e - 1, q);
      var k := Turn(s, e - 1);
      forall j | 0 <= j < e - 1 ensures Turn(s, j) != k {
        TurnsDiffer(s.cursor, j, e - 1, |s.valid|);
      }
      ReleaseKeeps(s, r, e - 1, k);
      HeldChange(Release(r, s.cursor, e - 1), Release(r, s.cursor, e), k, |s.valid|, q);
      LeavingOneMore(s, e, q);
    }
  }

  lemma LeavingOneMore(s: State, e: nat, q: Packet)
    requires Valid(s) && e > 0
    ensures Times(Leaving(s, e), q) == Times(Leaving(s, e - 1), q) + One(s.buffer[Turn(s, e - 1)] == q)
  {
    assert Leaving(s, e)[..e - 1] == Leaving(s, e - 1);
  }

  lemma ReleaseCursor(r: State, cursor: order, e: nat)
    requires Valid(r)
    ensures Release(r, cursor, e).cursor == CursorAfter(cursor, e)
  {
  }

  // ----- one edge without an error

  lemma {:induction false} LeavingInTurn(s: State, e: nat)
    requires Valid(s) && InTurn(s, e)
    ensures forall j :: 0 <= j < e ==> Leaving(s, e)[j].order == CursorAfter(s.cursor, j)
  {
    if e > 0 {
      LeavingInTurn(s, e - 1);
    }
  }

  lemma {:induction false} InTurnAt(s: State, e: nat, j: nat)
    requires Valid(s) && InTurn(s, e) && j < e
    ensures s.buffer[Turn(s, j)].order == CursorAfter(s.cursor, j)
  {
    if j < e - 1 {
      InTurnAt(s, e - 1, j);
    }
  }

  lemma SlotComesRound(cursor: order, depth: nat)
    requires IsDepth(depth)
    ensures Slot(CursorAfter(cursor, depth), depth) == Slot(CursorAfter(cursor, 0), depth)
    ensures CursorAfter(cursor, depth) != CursorAfter(cursor, 0)
  {
    ModOfMod(cursor + depth, ORDERS, depth);
    ModOfMod(cursor, ORDERS, depth);
    DivMod(cursor, depth);
    DivModUnique(cursor + depth, depth, cursor / depth + 1, cursor % depth);
    ResiduesDiffer(cursor, depth, ORDERS);
  }

  /** However many channels there are, no slot is read twice in a cycle without an error. */
  lemma {:induction false} AtMostDepthLeave(s: State, e: nat)
    requires Valid(s) && InTurn(s, e)
    ensures e <= |s.valid|
  {
    if e > |s.valid| {
      InTurnAt(s, e, 0);
      InTurnAt(s, e, |s.valid|);
      SlotComesRound(s.cursor, |s.valid|);
    }
  }

  lemma {:induction false} EdgeKeepsPlace(s: State, ports: seq<Port>)
    requires Valid(s) && InPlace(s) && NoError(s, ports)
    ensures InPlace(After(s, ports))
    ensures After(s, ports).cursor == CursorAfter(s.cursor, Emits(s, |ports|))
  {
    var r, e := Accept(s, ports, |ports|), Emits(s, |ports|);
    AcceptKeeps(s, ports, |ports|);
    ReleaseCursor(r, s.cursor, e);
    forall k | 0 <= k < |s.valid| && Release(r, s.cursor, e).valid[k] ensures r.valid[k] {
      ReleaseOnly(r, s.cursor, e, k);
    }
  }

  lemma {:induction false} EdgeCounts(s: State, ports: seq<Port>, q: Packet)
    requires Valid(s) && InPlace(s) && NoError(s, ports)
    ensures Times(Leaving(s, Emits(s, |ports|)), q) + Buffered(After(s, ports), q)
         <= Buffered(s, q) + Carried(ports, |ports|, q)
    ensures Distinct(ports, |s.valid|) ==>
      Times(Leaving(s, Emits(s, |ports|)), q) + Buffered(After(s, ports), q)
        == Buffered(s, q) + Carried(ports, |ports|, q)
  {
    AcceptKeeps(s, ports, |ports|);
    AcceptCounts(s, ports, |ports|, q);
    AtMostDepthLeave(s, Emits(s, |ports|));
    assert Waiting(s, Accept(s, ports, |ports|), Emits(s, |ports|));
    ReleaseCounts(s, Accept(s, ports, |ports|), Emits(s, |ports|), q);
  }

  // ----- traces

  type Trace = seq<seq<Port>>

  ghost predicate AllDistinct(trace: Trace, depth: nat)
    requires depth > 0
  {
    forall t :: 0 <= t < |trace| ==> Distinct(trace[t], depth)
  }

  /** The state after reset: no slot in use, whatever the slots hold. */
  ghost predicate IsReset(s: State) {
    Valid(s) && s.cursor == 0 && forall k :: 0 <= k < |s.valid| ==> !s.valid[k]
  }

  ghost function Run(s: State, trace: Trace): (r: State)
    requires Valid(s)
    ensures Valid(r) && |r.valid| == |s.valid|
  {
    if trace == [] then s else After(Run(s, trace[..|trace| - 1]), trace[|trace| - 1])
  }

  /** Everything that left, in the order of cycles and channels. */
  ghost function Delivered(s: State, trace: Trace): seq<Packet>
    requires Valid(s)
  {
    if trace == [] then []
    else
      var r, ports := Run(s, trace[..|trace| - 1]), trace[|trace| - 1];
      Delivered(s, trace[..|trace| - 1]) + Leaving(r, Emits(r, |ports|))
  }

  /** How often a packet came in. */
  function Accepted(trace: Trace, q: Packet): nat {
    if trace == [] then 0
    else Accepted(trace[..|trace| - 1], q) + Carried(trace[|trace| - 1], |trace[|trace| - 1]|, q)
  }

  /** No edge sets the error code. */
  ghost predicate NoErrors(s: State, trace: Trace)
    requires Valid(s)
  {
    trace == [] || (NoErrors(s, trace[..|trace| - 1]) && NoError(Run(s, trace[..|trace| - 1]), trace[|trace| - 1]))
  }

  lemma CursorAdds(m: nat, n: nat)
    ensures CursorAfter(m % ORDERS, n) == (m + n) % ORDERS
  {
  }

  /** Numbered 0, 1, 2, ... in 64 bits. */
  ghost predicate Numbered(out: seq<Packet>) {
    forall j :: 0 <= j < |out| ==> out[j].order == j % ORDERS
  }

  lemma {:induction false} NumbersGoOn(out: seq<Packet>, s: State, e: nat)
    requires Numbered(out) && Valid(s) && InTurn(s, e) && s.cursor == |out| % ORDERS
    ensures Numbered(out + Leaving(s, e)) && CursorAfter(s.cursor, e) == |out + Leaving(s, e)| % ORDERS
  {
    LeavingInTurn(s, e);
    CursorAdds(|out|, e);
    forall j | 0 <= j < e ensures Leaving(s, e)[j].order == (|out| + j) % ORDERS {
      CursorAdds(|out|, j);
    }
  }

  /** In any trace without an error the packets leave in the order of their numbers. */
  lemma {:induction false} DeliversInOrder(s: State, trace: Trace)
    requires IsReset(s) && NoErrors(s, trace)
    ensures Numbered(Delivered(s, trace))
    ensures InPlace(Run(s, trace)) && Run(s, trace).cursor == |Delivered(s, trace)| % ORDERS
    decreases |trace|
  {
    if trace != [] {
      var before, ports := trace[..|trace| - 1], trace[|trace| - 1];
      DeliversInOrder(s, before);
      EdgeKeepsPlace(Run(s, before), ports);
      NumbersGoOn(Delivered(s, before), Run(s, before), Emits(Run(s, before), |ports|));
    }
  }

  /** Nothing leaves or stays that did not come in, as often as it came in; and if no two packets of a
      cycle share a slot, everything that came in has left or is still buffered. */
  lemma {:induction false} NothingLostOrDoubled(s: State, trace: Trace, q: Packet)
    requires IsReset(s) && NoErrors(s, trace)
    ensures Times(Delivered(s, trace), q) + Buffered(Run(s, trace), q) <= Accepted(trace, q)
    ensures AllDistinct(trace, |s.valid|) ==>
      Times(Delivered(s, trace), q) + Buffered(Run(s, trace), q) == Accepted(trace, q)
    decreases |trace|
  {
    if trace == [] {
      NothingHeld(s, |s.valid|, q);
    } else {
      var before, ports := trace[..|trace| - 1], trace[|trace| - 1];
      NothingLostOrDoubled(s, before, q);
      DeliversInOrder(s, before);
      var r := Run(s, before);
      EdgeCounts(r, ports, q);
      TimesOfSum(Delivered(s, before), Leaving(r, Emits(r, |ports|)), q);
    }
  }

  lemma {:induction false} NothingHeld(s: State, n: nat, q: Packet)
    requires Valid(s) && n <= |s.valid| && forall k :: 0 <= k < |s.valid| ==> !s.valid[k]
    ensures Held(s, n, q) == 0
  {
    if n > 0 {
      NothingHeld(s, n - 1, q);
    }
  }

  /** Each packet that leaves came in under the number it leaves with. */
  lemma DeliveredWasAccepted(s: State, trace: Trace, j: nat)
    requires IsReset(s) && NoErrors(s, trace) && j < |Delivered(s, trace)|
    ensures Accepted(trace, Delivered(s, trace)[j]) > 0 && Delivered(s, trace)[j].order == j % ORDERS
  {
    DeliversInOrder(s, trace);
    NothingLostOrDoubled(s, trace, Delivered(s, trace)[j]);
    TimesPositive(Delivered(s, trace), j);
  }

  /** What the channels carry after each edge of a trace. */
  ghost function Outputs(s: State, trace: Trace): seq<seq<Port>>
    requires Valid(s)
  {
    if trace == [] then []
    else
      var before, ports := trace[..|trace| - 1], trace[|trace| - 1];
      Outputs(s, before) + [Ports(Run(s, before), |ports|)]
  }

  function AllCarrying(outs: seq<seq<Port>>): seq<Packet> {
    if outs == [] then [] else AllCarrying(outs[..|outs| - 1]) + Carrying(outs[|outs| - 1])
  }

  /** What the channels carry over a trace is what was delivered. */
  lemma {:induction false} OutputsDeliver(s: State, trace: Trace)
    requires Valid(s)
    ensures AllCarrying(Outputs(s, trace)) == Delivered(s, trace)
    decreases |trace|
  {
    if trace != [] {
      var before, ports := trace[..|trace| - 1], trace[|trace| - 1];
      OutputsDeliver(s, before);
      PortsCarry(Run(s, before), |ports|);
      assert Outputs(s, trace)[..|Outputs(s, before)|] == Outputs(s, before);
    }
  }

  method RunCycle(rob: Rob, trace: Trace, t: nat, ghost s: State, outs: seq<seq<Port>>, clean: bool)
      returns (outs': seq<seq<Port>>, clean': bool)
    requires rob.Ready() && Valid(s) && t < |trace| && rob.Registers() == Run(s, trace[..t])
    requires outs == Outputs(s, trace[..t]) && (clean <==> NoErrors(s, trace[..t]))
    modifies rob, rob.buffer, rob.valid
    ensures rob.Ready() && rob.Registers() == Run(s, trace[..t + 1])
    ensures outs' == Outputs(s, trace[..t + 1]) && (clean' <==> NoErrors(s, trace[..t + 1]))
  {
    assert trace[..t + 1][..t] == trace[..t];
    var out, errcode := rob.Clock(trace[t]);
    ErrorCodeZero(Run(s, trace[..t]), trace[t]);
    outs' := outs + [out];
    clean' := clean && errcode == 0;
  }

  /** One call of Clock for each cycle of the trace: the code goes through the same states, sends out the
      same packets and reports an error in the same traces. */
  method RunTrace(rob: Rob, trace: Trace, ghost s: State) returns (outs: seq<seq<Port>>, clean: bool)
    requires rob.Ready() && rob.Registers() == s
    modifies rob, rob.buffer, rob.valid
    ensures rob.Ready() && rob.Registers() == Run(s, trace)
    ensures outs == Outputs(s, trace) && (clean <==> NoErrors(s, trace))
  {
    outs := [];
    clean := true;
    var t := 0;
    while t < |trace|
      invariant 0 <= t <= |trace|
      invariant rob.Ready() && Valid(s) && rob.Registers() == Run(s, trace[..t])
      invariant outs == Outputs(s, trace[..t]) && (clean <==> NoErrors(s, trace[..t]))
    {
      outs, clean := RunCycle(rob, trace, t, s, outs, clean);
      t := t + 1;
    }
    assert trace[..|trace|] == trace;
  }
}

/** The reorder buffer of the formal monitor: packets come in out of order on several channels and leave
    in the order of their numbers. One call of Clock is one rising edge; every nonblocking assignment
    reads the values from before the edge, and of two to the same register the later one wins. */
module ReorderBuffer {

  const ORDERS: nat := 0x1_0000_0000_0000_0000
  type order = x: int | 0 <= x < ORDERS

  datatype Packet = Packet(order: order, data: int)
  datatype Port = Idle | Carries(packet: Packet)

  /** The registers between two edges. */
  datatype State = State(buffer: seq<Packet>, valid: seq<bool>, cursor: order)

  /** The low bits of a number select the slot. */
  function Slot(o: int, depth: nat): (k: nat)
    requires depth > 0
    ensures k < depth
  {
    o % depth
  }

  function Next(o: order): order {
    (o + 1) % ORDERS
  }

  /** A power of two that the 64 bits of a number can select among. */
  predicate IsDepth(depth: nat) {
    1 < depth < ORDERS && ORDERS % depth == 0
  }

  ghost predicate Valid(s: State) {
    |s.buffer| == |s.valid| && IsDepth(|s.valid|)
  }

  // ----- one edge, as functions of the state before it

  /** The slots after the packets on the first n channels are written. */
  function Accept(s: State, ports: seq<Port>, n: nat): (r: State)
    requires Valid(s) && n <= |ports|
    ensures Valid(r) && |r.valid| == |s.valid| && r.cursor == s.cursor
  {
    if n == 0 then s
    else
      var r := Accept(s, ports, n - 1);
      match ports[n - 1]
      case Idle => r
      case Carries(p) =>
        var k := Slot(p.order, |s.valid|);
        State(r.buffer[k := p], r.valid[k := true], r.cursor)
  }

  /** A packet arrived for a slot that was in use before the edge. */
  predicate Collides(s: State, port: Port)
    requires Valid(s)
  {
    port.Carries? && s.valid[Slot(port.packet.order, |s.valid|)]
  }

  function CursorAfter(cursor: order, n: nat): order {
    (cursor + n) % ORDERS
  }

  lemma CursorSteps(cursor: order, n: nat)
    ensures CursorAfter(cursor, n + 1) == Next(CursorAfter(cursor, n))
  {
  }

  /** The slot whose turn it is after j packets have left. */
  function Turn(s: State, j: nat): (k: nat)
    requires Valid(s)
    ensures k < |s.valid|
  {
    Slot(CursorAfter(s.cursor, j), |s.valid|)
  }

  /** How many of n channels emit: as many as there are slots in use, in a row, from the cursor on. */
  function Emits(s: State, n: nat): (e: nat)
    requires Valid(s)
    ensures e <= n
    ensures forall j :: 0 <= j < e ==> s.valid[Turn(s, j)]
    ensures e < n ==> !s.valid[Turn(s, e)]
  {
    if n == 0 then 0
    else
      var e := Emits(s, n - 1);
      if e == n - 1 && s.valid[Turn(s, e)] then n else e
  }

  /** The first e packets to leave. */
  function Leaving(s: State, e: nat): (out: seq<Packet>)
    requires Valid(s)
    ensures |out| == e
  {
    if e == 0 then [] else Leaving(s, e - 1) + [s.buffer[Turn(s, e - 1)]]
  }

  /** The first e packets to leave have the numbers whose turn it is. */
  predicate InTurn(s: State, e: nat)
    requires Valid(s)
  {
    e == 0 || (InTurn(s, e - 1) && s.buffer[Turn(s, e - 1)].order == CursorAfter(s.cursor, e - 1))
  }

  /** The channels that carry the packets, and the idle ones after them. */
  function Ports(s: State, n: nat): (out: seq<Port>)
    requires Valid(s)
    ensures |out| == n
  {
    if n == 0 then []
    else Ports(s, n - 1) + [if Emits(s, n) == n then Carries(s.buffer[Turn(s, n - 1)]) else Idle]
  }

  function Carrying(out: seq<Port>): seq<Packet> {
    if out == [] then []
    else Carrying(out[..|out| - 1]) + if out[|out| - 1].Carries? then [out[|out| - 1].packet] else []
  }

  /** The channels carry exactly the packets that leave, in order. */
  lemma {:induction false} PortsCarry(s: State, n: nat)
    requires Valid(s)
    ensures Carrying(Ports(s, n)) == Leaving(s, Emits(s, n))
  {
    if n > 0 {
      PortsCarry(s, n - 1);
      assert Ports(s, n)[..n - 1] == Ports(s, n - 1);
    }
  }

  /** They carry them on the first channels, and the others are idle. */
  lemma {:induction false} PortsAt(s: State, n: nat, c: nat)
    requires Valid(s) && c < n
    ensures Ports(s, n)[c] == if c < Emits(s, n) then Carries(s.buffer[Turn(s, c)]) else Idle
  {
    if c < n - 1 {
      PortsAt(s, n - 1, c);
    }
  }

  /** The first e slots from the cursor are given up in r. */
  function Release(r: State, cursor: order, e: nat): (r': State)
    requires Valid(r)
    ensures Valid(r') && |r'.valid| == |r.valid| && r'.buffer == r.buffer
  {
    if e == 0 then r.(cursor := cursor)
    else
      var r' := Release(r, cursor, e - 1);
      State(r'.buffer, r'.valid[Slot(CursorAfter(cursor, e - 1), |r.valid|) := false], CursorAfter(cursor, e))
  }

  function After(s: State, ports: seq<Port>): (r: State)
    requires Valid(s)
    ensures Valid(r) && |r.valid| == |s.valid|
  {
    Release(Accept(s, ports, |ports|), s.cursor, Emits(s, |ports|))
  }

  /** What makes the error code zero: no collision, and every packet that leaves has the number whose
      turn it is. */
  predicate NoError(s: State, ports: seq<Port>)
    requires Valid(s)
  {
    && (forall c :: 0 <= c < |ports| ==> !Collides(s, ports[c]))
    && InTurn(s, Emits(s, |ports|))
  }

  /** The code of the last of the first n channels that brings a packet for a slot in use; zero if there is none. */
  function CollisionCode(s: State, ports: seq<Port>, n: nat): nat
    requires Valid(s) && n <= |ports|
  {
    if n == 0 then 0
    else if Collides(s, ports[n - 1]) then 60000 + ports[n - 1].packet.order % 256
    else CollisionCode(s, ports, n - 1)
  }

  /** The code of the last of the first e packets to leave out of turn; err if there is none. */
  function TurnCode(s: State, e: nat, err: nat): nat
    requires Valid(s)
  {
    if e == 0 then err
    else if s.buffer[Turn(s, e - 1)].order != CursorAfter(s.cursor, e - 1) then 61000 + CursorAfter(s.cursor, e - 1) % 256
    else TurnCode(s, e - 1, err)
  }

  /** Packets out of turn hide collisions, and of each kind the last one shows. */
  function ErrorCode(s: State, ports: seq<Port>): nat
    requires Valid(s)
  {
    TurnCode(s, Emits(s, |ports|), CollisionCode(s, ports, |ports|))
  }

  /** Channel c is the last of the first n to bring a packet for a slot in use. */
  ghost predicate LastCollision(s: State, ports: seq<Port>, n: nat, c: nat)
    requires Valid(s) && n <= |ports|
  {
    c < n && Collides(s, ports[c]) && forall k :: c < k < n ==> !Collides(s, ports[k])
  }

  /** Packet j is the last of the first e to leave out of turn. */
  ghost predicate LastOutOfTurn(s: State, e: nat, j: nat)
    requires Valid(s)
  {
    j < e && OutOfTurn(s, j) && forall k :: j < k < e ==> !OutOfTurn(s, k)
  }

  predicate OutOfTurn(s: State, j: nat)
    requires Valid(s)
  {
    s.buffer[Turn(s, j)].order != (s.cursor + j) % ORDERS
  }

  /** A collision shows as 60000 and the low byte of the packet's number. */
  lemma {:induction false} CollisionCodeIs(s: State, ports: seq<Port>, n: nat, c: nat)
    requires Valid(s) && n <= |ports| && LastCollision(s, ports, n, c)
    ensures CollisionCode(s, ports, n) == 60000 + ports[c].packet.order % 256
  {
    if c < n - 1 {
      CollisionCodeIs(s, ports, n - 1, c);
    }
  }

  /** A packet out of turn shows as 61000 and the low byte of the number whose turn it was, whatever collided. */
  lemma {:induction false} TurnCodeIs(s: State, e: nat, err: nat, j: nat)
    requires Valid(s) && LastOutOfTurn(s, e, j)
    ensures TurnCode(s, e, err) == 61000 + (s.cursor + j) % ORDERS % 256
  {
    if j < e - 1 {
      assert !OutOfTurn(s, e - 1);
      TurnCodeIs(s, e - 1, err, j);
    }
  }

  /** With every packet in turn the code is that of the collision. */
  lemma {:induction false} InTurnCodeIs(s: State, e: nat, err: nat)
    requires Valid(s) && forall k :: 0 <= k < e ==> !OutOfTurn(s, k)
    ensures TurnCode(s, e, err) == err
  {
    if e > 0 {
      assert !OutOfTurn(s, e - 1);
      InTurnCodeIs(s, e - 1, err);
    }
  }

  lemma {:induction false} NoCollisionCode(s: State, ports: seq<Port>, n: nat)
    requires Valid(s) && n <= |ports|
    ensures CollisionCode(s, ports, n) == 0 <==> forall c :: 0 <= c < n ==> !Collides(s, ports[c])
  {
    if n > 0 {
      NoCollisionCode(s, ports, n - 1);
    }
  }

  lemma {:induction false} NoTurnCode(s: State, e: nat, err: nat)
    requires Valid(s)
    ensures TurnCode(s, e, err) == 0 <==> err == 0 && InTurn(s, e)
  {
    if e > 0 {
      NoTurnCode(s, e - 1, err);
    }
  }

  /** No error code means that every packet came for a free slot and left in turn. */
  lemma ErrorCodeZero(s: State, ports: seq<Port>)
    requires Valid(s)
    ensures ErrorCode(s, ports) == 0 <==> NoError(s, ports)
  {
    NoTurnCode(s, Emits(s, |ports|), CollisionCode(s, ports, |ports|));
    NoCollisionCode(s, ports, |ports|);
  }

  // ----- the code

  class Rob {
    const buffer: array<Packet>
    const valid: array<bool>
    var cursor: order

    ghost predicate Ready()
      reads this
    {
      buffer.Length == valid.Length && IsDepth(valid.Length)
    }

    function Registers(): State
      reads this, buffer, valid
    {
      State(buffer[..], valid[..], cursor)
    }

    constructor (depth: nat)
      requires IsDepth(depth)
      ensures Ready() && valid.Length == depth && fresh(buffer) && fresh(valid)
    {
      buffer := new Packet[depth](_ => Packet(0, 0));
      valid := new bool[depth];
      cursor := 0;
    }

    method Reset()
      requires Ready()
      modifies this, valid
      ensures Ready() && cursor == 0 && forall k :: 0 <= k < valid.Length ==> !valid[k]
    {
      var k := 0;
      while k < valid.Length
        invariant 0 <= k <= valid.Length && forall i :: 0 <= i < k ==> !valid[i]
      {
        valid[k] := false;
        k := k + 1;
      }
      cursor := 0;
    }

    method Clock(ports: seq<Port>) returns (out: seq<Port>, errcode: nat)
      requires Ready()
      modifies this, buffer, valid
      ensures Ready() && Registers() == After(old(Registers()), ports)
      ensures out == Ports(old(Registers()), |ports|)
      ensures errcode == ErrorCode(old(Registers()), ports)
    {
      ghost var s := Registers();
      var depth := valid.Length;
      var wasValid, wasBuffer := valid[..], buffer[..];
      errcode := 0;
      var c := 0;
      while c < |ports|
        invariant 0 <= c <= |ports| && Registers() == Accept(s, ports, c)
        invariant errcode == CollisionCode(s, ports, c)
      {
        match ports[c] {
          case Idle =>
          case Carries(p) =>
            if wasValid[Slot(p.order, depth)] {
              errcode := 60000 + p.order % 256;
              assert Collides(s, ports[c]);
            }
            buffer[Slot(p.order, depth)] := p;
            valid[Slot(p.order, depth)] := true;
        }
        c := c + 1;
      }
      out, errcode := Emit(wasValid, wasBuffer, |ports|, errcode, s, Registers());
    }

    method Emit(wasValid: seq<bool>, wasBuffer: seq<Packet>, channels: nat, err: nat, ghost s: State, ghost r: State)
        returns (out: seq<Port>, errcode: nat)
      requires Ready() && Valid(s) && Registers() == r && r.cursor == s.cursor
      requires wasValid == s.valid && wasBuffer == s.buffer && |s.valid| == valid.Length
      modifies this, valid
      ensures Registers() == Release(r, s.cursor, Emits(s, channels))
      ensures out == Ports(s, channels)
      ensures errcode == TurnCode(s, Emits(s, channels), err)
    {
      var depth := valid.Length;
      errcode := err;
      out := [];
      var continueFlag := true;
      var c := 0;
      while c < channels
        invariant 0 <= c <= channels && out == Ports(s, c)
        invariant Registers() == Release(r, s.cursor, Emits(s, c)) && cursor == CursorAfter(s.cursor, Emits(s, c))
        invariant continueFlag <==> Emits(s, c) == c
        invariant errcode == TurnCode(s, Emits(s, c), err)
      {
        var k := Slot(cursor, depth);
        if continueFlag && wasValid[k] {
          CursorSteps(s.cursor, c);
          if wasBuffer[k].order != cursor {
            errcode := 61000 + cursor % 256;
          }
          out := out + [Carries(wasBuffer[k])];
          valid[k] := false;
          cursor := Next(cursor);
        } else {
          continueFlag := false;
          out := out + [Idle];
        }
        c := c + 1;
      }
    }
  }
}

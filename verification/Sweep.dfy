/** The exclusivity sweep: no saved register, special register or granule of memory may hold a
    capability that reaches into the enclave's code or data, and its code may hold no capability. */
module Sweep {
  import opened Words
  import opened Capabilities

  const NUM_REG: nat := 31
  const NUM_SPECIAL: nat := 7

  /** Memory as capabilities see it: what capability a granule holds. Elsewhere there is none. */
  type Granules = map<u64, Capability>

  predicate Tagged(caps: Granules, a: int) {
    a in caps && caps[a].tag
  }

  // ----- the interval test

  ghost predicate Disjoint(c: Capability, m: Capability) {
    forall a :: !(Reaches(c, a) && Reaches(m, a))
  }

  predicate Apart(base: u64, limit: u64, m: Capability) {
    limit <= m.base || base >= m.Limit()
  }

  method BoundsNonOverlapCheckTwoCap(base1: u64, limit1: u64, base2: u64, limit2: u64, m: Capability)
      returns (r: int)
    ensures r == if Apart(base1, limit1, m) && Apart(base2, limit2, m) then 0 else -1
  {
    var baseM := m.base;
    var limitM := (baseM + m.length) % TWO64;
    if (limit1 <= baseM || base1 >= limitM) && (limit2 <= baseM || base2 >= limitM) {
      r := 0;
    } else {
      r := -1;
    }
  }

  /** Below the top a passed test means disjoint ranges, and for ranges that are not empty a failed one
      means ranges that meet. */
  lemma ApartIsDisjoint(c: Capability, m: Capability)
    requires c.base + c.length < TWO64 && m.base + m.length < TWO64
    ensures Apart(c.base, c.Limit(), m) ==> Disjoint(c, m)
    ensures c.length > 0 && m.length > 0 ==> (Apart(c.base, c.Limit(), m) <==> Disjoint(c, m))
  {
    if c.length > 0 && m.length > 0 && !Apart(c.base, c.Limit(), m) {
      var a := if c.base <= m.base then m.base else c.base;
      assert Reaches(c, a) && Reaches(m, a);
    }
  }

  /** A register whose range runs up to the very top of the address space ends at zero in 64 bits, so that
      it passes whatever the code range is. The test is sound for a register exactly when that does not
      happen, or only the last address of all is in its range. */
  lemma {:induction false} SoundForRegister(m: Capability)
    requires m.InSpace()
    ensures (forall c: Capability :: c.base + c.length < TWO64 && Apart(c.base, c.Limit(), m) ==> Disjoint(c, m))
        <==> m.base + m.length < TWO64 || m.length == 1
  {
    if m.base + m.length < TWO64 {
      forall c: Capability | c.base + c.length < TWO64 && Apart(c.base, c.Limit(), m)
        ensures Disjoint(c, m)
      {
        ApartIsDisjoint(c, m);
      }
    } else if m.length > 1 {
      var c := m.(length := 1);
      assert Apart(c.base, c.Limit(), m) && Reaches(c, m.base) && Reaches(m, m.base);
    }
  }

  /** The same at the other side, where it matters more: a code or data range up to the very top ends at
      zero, and everything passes against it. The test guards a range exactly when that does not happen,
      or the last address of all is the whole range. */
  lemma {:induction false} SoundForGuard(c: Capability)
    requires c.InSpace()
    ensures (forall m: Capability :: m.base + m.length < TWO64 && Apart(c.base, c.Limit(), m) ==> Disjoint(c, m))
        <==> c.base + c.length < TWO64 || c.length == 1
    ensures c.base + c.length == TWO64 ==> forall m: Capability :: Apart(c.base, c.Limit(), m)
  {
    if c.base + c.length < TWO64 {
      forall m: Capability | m.base + m.length < TWO64 && Apart(c.base, c.Limit(), m)
        ensures Disjoint(c, m)
      {
        ApartIsDisjoint(c, m);
      }
    } else if c.length > 1 {
      var m := c.(length := 1);
      assert Apart(c.base, c.Limit(), m) && Reaches(c, c.base) && Reaches(m, c.base);
    }
  }

  /** The test is stricter than it need be on empty ranges: an empty one strictly inside fails it. */
  lemma EmptyInsideFails(c: Capability, m: Capability)
    requires c.base + c.length < TWO64 && m.length == 0
    ensures Disjoint(c, m)
    ensures Apart(c.base, c.Limit(), m) <==> !(c.base < m.base < c.base + c.length)
  {
  }

  // ----- registers

  /** A value found in a register or in memory passes for code and data. */
  predicate Passes(code: Capability, data: Capability, m: Capability) {
    m.tag ==> Apart(code.base, code.Limit(), m) && Apart(data.base, data.Limit(), m)
  }

  method CheckReg(code: Capability, data: Capability, m: Capability) returns (r: int)
    ensures r == if Passes(code, data, m) then 0 else -1
  {
    if m.tag {
      var t := BoundsNonOverlapCheckTwoCap(code.base, code.Limit(), data.base, data.Limit(), m);
      if t != 0 {
        return -1;
      }
    }
    r := 0;
  }

  /** All saved registers but the first two, which carry the code and data capabilities themselves. */
  method GpregSweep(code: Capability, data: Capability, regs: seq<Capability>) returns (r: int)
    requires |regs| == NUM_REG
    ensures r == 0 || r == -1
    ensures r == 0 <==> forall k :: 2 <= k < NUM_REG ==> Passes(code, data, regs[k])
  {
    var k := 0;
    while k < NUM_REG
      invariant 0 <= k <= NUM_REG
      invariant forall i :: 2 <= i < k ==> Passes(code, data, regs[i])
    {
      if k > 1 && regs[k].tag {
        var t := BoundsNonOverlapCheckTwoCap(code.base, code.Limit(), data.base, data.Limit(), regs[k]);
        if t != 0 {
          assert !Passes(code, data, regs[k]);
          return -1;
        }
      }
      k := k + 1;
    }
    r := 0;
  }

  method ScrsSweep(code: Capability, data: Capability, special: seq<Capability>) returns (r: int)
    requires |special| == NUM_SPECIAL
    ensures r == 0 || r == -1
    ensures r == 0 <==> forall k :: 0 <= k < NUM_SPECIAL ==> Passes(code, data, special[k])
  {
    var ddcEl1 := CheckReg(code, data, special[0]);
    var pcc := CheckReg(code, data, special[1]);
    var elrEl2 := CheckReg(code, data, special[2]);
    var cspEl1 := CheckReg(code, data, special[3]);
    var celrEl1 := CheckReg(code, data, special[4]);
    var ctpidrEl1 := CheckReg(code, data, special[5]);
    var cvbarEl1 := CheckReg(code, data, special[6]);
    r := if ddcEl1 != 0 || pcc != 0 || elrEl2 != 0 || cspEl1 != 0 || celrEl1 != 0 || ctpidrEl1 != 0 || cvbarEl1 != 0
      then -1 else 0;
  }

  // ----- memory

  /** The memory of EL1 as the monitor is given it: whole granules, from the capability's own base. */
  predicate IsMemory(el1: Capability) {
    && el1.Usable(LoadCapPerm) && el1.address == el1.base && el1.base % CAP_LEN == 0
    && el1.length >= CAP_LEN && el1.InSpace()
  }

  predicate GranulePasses(code: Capability, data: Capability, caps: Granules, a: int) {
    a in caps ==> Passes(code, data, caps[a])
  }

  method MemSweep(code: Capability, data: Capability, el1: Capability, caps: Granules) returns (r: int)
    requires IsMemory(el1)
    ensures r == 0 || r == -1
    ensures r == 0 <==> forall j :: 0 <= j && CAP_LEN * j + CAP_LEN <= el1.length ==>
      GranulePasses(code, data, caps, el1.base + CAP_LEN * j)
  {
    var index: nat := 0;
    ghost var j := 0;
    while index <= el1.length - CAP_LEN
      invariant index == CAP_LEN * j && index <= el1.length
      invariant forall i :: 0 <= i < j ==> GranulePasses(code, data, caps, el1.base + CAP_LEN * i)
    {
      var a := el1.address + index;
      assert el1.MayAccessCap(LoadCapPerm, a);
      if a in caps && caps[a].tag {
        var t := BoundsNonOverlapCheckTwoCap(code.base, code.Limit(), data.base, data.Limit(), caps[a]);
        if t != 0 {
          assert !GranulePasses(code, data, caps, el1.base + CAP_LEN * j);
          return -1;
        }
      }
      index := index + CAP_LEN;
      j := j + 1;
    }
    r := 0;
  }

  // ----- the code section

  datatype Scan = Clear | Found | Faulted

  /** What happens from offset i on, when granules are loaded one by one through the code capability. */
  function CodeScan(code: Capability, caps: Granules, i: nat): Scan
    decreases code.length - i
  {
    if i + CAP_LEN > code.length then Clear
    else if !code.MayAccessCap(LoadCapPerm, code.address + i) then Faulted
    else if Tagged(caps, code.address + i) then Found
    else CodeScan(code, caps, i + CAP_LEN)
  }

  method CodeCapSweep(code: Capability, caps: Granules) returns (r: Scan)
    ensures r == CodeScan(code, caps, 0)
  {
    var length := code.length;
    if length >= CAP_LEN {
      var index: nat := 0;
      while index <= length - CAP_LEN
        invariant CodeScan(code, caps, index) == CodeScan(code, caps, 0)
        invariant index <= length
      {
        var a := code.address + index;
        if !code.MayAccessCap(LoadCapPerm, a) {
          return Faulted;
        }
        if Tagged(caps, a) {
          return Found;
        }
        index := index + CAP_LEN;
      }
    }
    r := Clear;
  }

  /** The scan is clear exactly when every whole granule from the address on can be loaded and holds no
      capability. */
  lemma {:induction false} CodeScanClear(code: Capability, caps: Granules, i: nat)
    ensures CodeScan(code, caps, i) == Clear <==> forall j :: 0 <= j && i + CAP_LEN * j + CAP_LEN <= code.length ==>
      GranuleClear(code, caps, code.address + i + CAP_LEN * j)
    decreases code.length - i
  {
    if i + CAP_LEN <= code.length {
      var next := i + CAP_LEN;
      CodeScanClear(code, caps, next);
      if CodeScan(code, caps, i) == Clear {
        forall j | 0 <= j && i + CAP_LEN * j + CAP_LEN <= code.length
          ensures GranuleClear(code, caps, code.address + i + CAP_LEN * j)
        {
          if j > 0 {
            assert GranuleClear(code, caps, code.address + next + CAP_LEN * (j - 1));
          }
        }
      } else if GranuleClear(code, caps, code.address + i + CAP_LEN * 0) {
        var j :| 0 <= j && next + CAP_LEN * j + CAP_LEN <= code.length
          && !GranuleClear(code, caps, code.address + next + CAP_LEN * j);
        assert !GranuleClear(code, caps, code.address + i + CAP_LEN * (j + 1));
      }
    }
  }

  /** It faults exactly when some granule cannot be loaded and all before it are clear. */
  lemma {:induction false} CodeScanFaults(code: Capability, caps: Granules, i: nat)
    ensures CodeScan(code, caps, i) == Faulted <==> exists j :: Stuck(code, caps, i, j)
    decreases code.length - i
  {
    if i + CAP_LEN <= code.length {
      var next := i + CAP_LEN;
      CodeScanFaults(code, caps, next);
      if CodeScan(code, caps, i) == Faulted {
        if code.MayAccessCap(LoadCapPerm, code.address + i) {
          var j :| Stuck(code, caps, next, j);
          StuckLater(code, caps, i, j + 1);
          assert Stuck(code, caps, i, j + 1);
        } else {
          assert Stuck(code, caps, i, 0);
        }
      } else if j :| Stuck(code, caps, i, j) {
        assert j == 0 || GranuleClear(code, caps, code.address + i + CAP_LEN * 0);
        StuckLater(code, caps, i, j);
      }
    }
  }

  /** Granule j from offset i on is the first that cannot be loaded, and those before it are clear. */
  ghost predicate Stuck(code: Capability, caps: Granules, i: nat, j: int) {
    && 0 <= j && i + CAP_LEN * j + CAP_LEN <= code.length
    && !code.MayAccessCap(LoadCapPerm, code.address + i + CAP_LEN * j)
    && forall k :: 0 <= k < j ==> GranuleClear(code, caps, code.address + i + CAP_LEN * k)
  }

  lemma StuckLater(code: Capability, caps: Granules, i: nat, j: int)
    requires j > 0 && GranuleClear(code, caps, code.address + i)
    ensures Stuck(code, caps, i, j) <==> Stuck(code, caps, i + CAP_LEN, j - 1)
  {
    if Stuck(code, caps, i, j) {
      forall k | 0 <= k < j - 1
        ensures GranuleClear(code, caps, code.address + i + CAP_LEN + CAP_LEN * k)
      {
        assert GranuleClear(code, caps, code.address + i + CAP_LEN * (k + 1));
      }
    }
    if Stuck(code, caps, i + CAP_LEN, j - 1) {
      forall k | 0 <= k < j
        ensures GranuleClear(code, caps, code.address + i + CAP_LEN * k)
      {
        if k > 0 {
          assert GranuleClear(code, caps, code.address + i + CAP_LEN + CAP_LEN * (k - 1));
        }
      }
    }
  }

  predicate GranuleClear(code: Capability, caps: Granules, a: int) {
    code.MayAccessCap(LoadCapPerm, a) && !Tagged(caps, a)
  }

  // ----- everything

  /** What the sweep decides. */
  ghost predicate Exclusive(code: Capability, data: Capability, regs: seq<Capability>, special: seq<Capability>,
      el1: Capability, caps: Granules)
    requires |regs| == NUM_REG && |special| == NUM_SPECIAL
  {
    && (forall k :: 2 <= k < NUM_REG ==> Passes(code, data, regs[k]))
    && (forall k :: 0 <= k < NUM_SPECIAL ==> Passes(code, data, special[k]))
    && (forall j :: 0 <= j && CAP_LEN * j + CAP_LEN <= el1.length ==>
          GranulePasses(code, data, caps, el1.base + CAP_LEN * j))
  }

  ghost function SweepResult(code: Capability, data: Capability, regs: seq<Capability>, special: seq<Capability>,
      el1: Capability, caps: Granules): Scan
    requires |regs| == NUM_REG && |special| == NUM_SPECIAL
  {
    var scan := CodeScan(code, caps, 0);
    if scan == Faulted then Faulted
    else if scan == Clear && Exclusive(code, data, regs, special, el1, caps) then Clear
    else Found
  }

  /** Registers, memory and the code section, all three whatever the first ones find. */
  method RunSweep(code: Capability, data: Capability, regs: seq<Capability>, special: seq<Capability>,
      el1: Capability, caps: Granules) returns (r: Scan)
    requires |regs| == NUM_REG && |special| == NUM_SPECIAL && IsMemory(el1)
    ensures r == SweepResult(code, data, regs, special, el1, caps)
  {
    var gp := GpregSweep(code, data, regs);
    var scrs := ScrsSweep(code, data, special);
    var mem := MemSweep(code, data, el1, caps);
    var scan := CodeCapSweep(code, caps);
    if scan == Faulted {
      return Faulted;
    }
    r := if gp != 0 || scrs != 0 || mem != 0 || scan != Clear then Found else Clear;
  }

  /** After a clear sweep nothing that was checked reaches into the code or the data, provided that no range
      runs up to the very top of the address space; SoundForGuard and SoundForRegister say what happens there. */
  lemma ClearMeansDisjoint(code: Capability, data: Capability, regs: seq<Capability>, special: seq<Capability>,
      el1: Capability, caps: Granules, m: Capability)
    requires |regs| == NUM_REG && |special| == NUM_SPECIAL
    requires SweepResult(code, data, regs, special, el1, caps) == Clear
    requires m.tag && (m in regs[2..] || m in special
      || exists j :: 0 <= j && CAP_LEN * j + CAP_LEN <= el1.length && Holds(caps, el1.base + CAP_LEN * j, m))
    requires code.base + code.length < TWO64 && data.base + data.length < TWO64 && m.base + m.length < TWO64
    ensures Disjoint(code, m) && Disjoint(data, m)
  {
    if m in regs[2..] {
      var k :| 0 <= k < |regs[2..]| && regs[2..][k] == m;
      assert Passes(code, data, regs[k + 2]);
    } else if m in special {
      var k :| 0 <= k < |special| && special[k] == m;
      assert Passes(code, data, special[k]);
    } else {
      var j :| 0 <= j && CAP_LEN * j + CAP_LEN <= el1.length && Holds(caps, el1.base + CAP_LEN * j, m);
      assert GranulePasses(code, data, caps, el1.base + CAP_LEN * j);
    }
    ApartIsDisjoint(code, m);
    ApartIsDisjoint(data, m);
  }

  /** The sweep is not clear when anything it checks reaches into the code or the data. */
  lemma ReachingIsFound(code: Capability, data: Capability, regs: seq<Capability>, special: seq<Capability>,
      el1: Capability, caps: Granules, m: Capability)
    requires |regs| == NUM_REG && |special| == NUM_SPECIAL
    requires m.tag && (m in regs[2..] || m in special
      || exists j :: 0 <= j && CAP_LEN * j + CAP_LEN <= el1.length && Holds(caps, el1.base + CAP_LEN * j, m))
    requires code.base + code.length < TWO64 && data.base + data.length < TWO64 && m.base + m.length < TWO64
    requires !Disjoint(code, m) || !Disjoint(data, m)
    ensures SweepResult(code, data, regs, special, el1, caps)
         == if exists j :: Stuck(code, caps, 0, j) then Faulted else Found
  {
    CodeScanFaults(code, caps, 0);
    if SweepResult(code, data, regs, special, el1, caps) == Clear {
      ClearMeansDisjoint(code, data, regs, special, el1, caps, m);
    }
  }

  /** Nor is it when a whole granule of the code section holds a capability that can be loaded. */
  lemma CapabilityInCodeIsFound(code: Capability, data: Capability, regs: seq<Capability>, special: seq<Capability>,
      el1: Capability, caps: Granules, j: nat)
    requires |regs| == NUM_REG && |special| == NUM_SPECIAL
    requires CAP_LEN * j + CAP_LEN <= code.length && Tagged(caps, code.address + CAP_LEN * j)
    ensures SweepResult(code, data, regs, special, el1, caps)
         == if exists j :: Stuck(code, caps, 0, j) then Faulted else Found
  {
    CodeScanFaults(code, caps, 0);
    CodeScanClear(code, caps, 0);
    assert !GranuleClear(code, caps, code.address + 0 + CAP_LEN * j);
  }

  ghost predicate Holds(caps: Granules, a: int, m: Capability) {
    a in caps && caps[a] == m
  }
}

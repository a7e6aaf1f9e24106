/** The bump allocators that hand out enclave memory: one heap capability that shrinks with every
    allocation, on Morello and on Proteus. */
module UniqueAlloc {
  import opened Words
  import opened Capabilities

  /** The size rounded up to whole granules, in 64 bits. */
  function Rounded(size: u64): u64 {
    var up := (size + CAP_LEN - 1) % TWO64;
    up - up % CAP_LEN
  }

  lemma Down(up: nat)
    ensures (up - up % CAP_LEN) % CAP_LEN == 0 && up - CAP_LEN < up - up % CAP_LEN <= up
  {
  }

  lemma {:induction false} Wraps(size: u64)
    ensures (size + CAP_LEN - 1) % TWO64
         == if size <= TWO64 - CAP_LEN then size + CAP_LEN - 1 else size + CAP_LEN - 1 - TWO64
  {
  }

  /** The rounding covers the request exactly when it does not wrap. */
  lemma RoundedCovers(size: u64)
    ensures Rounded(size) % CAP_LEN == 0
    ensures Rounded(size) >= size <==> size <= TWO64 - CAP_LEN
    ensures size <= TWO64 - CAP_LEN ==> Rounded(size) < size + CAP_LEN
    ensures size > TWO64 - CAP_LEN ==> Rounded(size) == 0
  {
    Wraps(size);
    Down((size + CAP_LEN - 1) % TWO64);
  }

  /** What one call leaves in heap_cap and in *dst, and whether it returns zero. */
  datatype Allocation = Allocation(heap: Capability, dst: Capability, ok: bool)

  function AfterAlloc(arch: Arch, heap: Capability, size: u64): Allocation {
    var n := Rounded(size);
    var dst := BoundsSetExact(arch, heap, n);
    if !dst.tag then Allocation(heap, dst, false)
    else
      var rest := BoundsSetExact(arch,
        AddressSet(arch, heap, (heap.address + n) % TWO64), (heap.length - n) % TWO64);
      Allocation(rest, dst, rest.tag)
  }

  class Allocator {
    const arch: Arch
    var heapCap: Capability

    constructor (arch: Arch, blank: Capability)
      ensures this.arch == arch && heapCap == blank
    {
      this.arch := arch;
      heapCap := blank;
    }

    method Init(heap: Capability) returns (r: int)
      modifies this
      ensures heap.tag ==> r == 0 && heapCap == heap
      ensures !heap.tag ==> r == -1 && heapCap == old(heapCap)
    {
      if !heap.tag {
        return -1;
      }
      heapCap := heap;
      r := 0;
    }

    method Alloc(size: u64) returns (dst: Capability, r: int)
      modifies this
      ensures Allocation(heapCap, dst, r == 0) == AfterAlloc(arch, old(heapCap), size)
      ensures r == 0 || r == -1
    {
      var n := Rounded(size);
      dst := BoundsSetExact(arch, heapCap, n);
      if !dst.tag {
        return dst, -1;
      }
      var heapEnd := (heapCap.address + n) % TWO64;
      var heapCapLen := (heapCap.length - n) % TWO64;
      heapCap := AddressSet(arch, heapCap, heapEnd);
      heapCap := BoundsSetExact(arch, heapCap, heapCapLen);
      if !heapCap.tag {
        return dst, -1;
      }
      r := 0;
    }
  }

  // ----- one call

  /** A call succeeds exactly when the heap capability is usable and points at its own start, the rounded
      size fits, and the processor can represent both parts. */
  lemma SucceedsIff(arch: Arch, heap: Capability, size: u64)
    requires heap.InSpace()
    ensures var n := Rounded(size);
      AfterAlloc(arch, heap, size).ok <==>
        && heap.tag && !heap.Sealed() && heap.address == heap.base && n <= heap.length
        && arch.exact(heap.base, n)
        && heap.base + n < TWO64 && arch.representable(heap.base, heap.length, heap.base + n)
        && arch.exact(heap.base + n, heap.length - n)
  {
  }

  /** What a successful call hands out and keeps: the two parts of the heap, side by side. */
  lemma SplitsTheHeap(arch: Arch, heap: Capability, size: u64)
    requires heap.InSpace() && AfterAlloc(arch, heap, size).ok
    ensures var (n, a) := (Rounded(size), AfterAlloc(arch, heap, size));
      && a.dst == heap.(length := n)
      && a.heap == heap.(base := heap.base + n, address := heap.base + n, length := heap.length - n)
      && n <= heap.length && n % CAP_LEN == 0 && a.heap.InSpace()
  {
    SucceedsIff(arch, heap, size);
  }

  /** A call that fails either changes nothing or leaves the heap untagged. */
  lemma FailureIsFinal(arch: Arch, heap: Capability, size: u64)
    requires !AfterAlloc(arch, heap, size).ok
    ensures var a := AfterAlloc(arch, heap, size);
      (a.heap == heap && !a.dst.tag) || (a.dst.tag && !a.heap.tag)
  {
  }

  /** Which of the two: it changes nothing exactly if the part asked for cannot be cut off at all, and otherwise hands that
      out in dst although it answers that it failed. */
  lemma FailureIs(arch: Arch, heap: Capability, size: u64)
    requires !AfterAlloc(arch, heap, size).ok
    ensures var a := AfterAlloc(arch, heap, size);
      if heap.tag && heap.otype == OTYPE_UNSEALED && heap.base <= heap.address
         && heap.address + Rounded(size) <= heap.base + heap.length && arch.exact(heap.address, Rounded(size))
      then a.dst.tag && a.dst.base == heap.address && a.dst.length == Rounded(size) && !a.heap.tag
      else a.heap == heap && !a.dst.tag
  {
  }

  // ----- any sequence of calls

  ghost function Run(arch: Arch, heap: Capability, sizes: seq<u64>): Capability {
    if sizes == [] then heap
    else AfterAlloc(arch, Run(arch, heap, sizes[..|sizes| - 1]), sizes[|sizes| - 1]).heap
  }

  /** The capabilities that successful calls handed out, in order. */
  ghost function Granted(arch: Arch, heap: Capability, sizes: seq<u64>): seq<Capability> {
    if sizes == [] then []
    else
      var before := sizes[..|sizes| - 1];
      var a := AfterAlloc(arch, Run(arch, heap, before), sizes[|sizes| - 1]);
      Granted(arch, heap, before) + if a.ok then [a.dst] else []
  }

  ghost function Total(g: seq<Capability>): nat {
    if g == [] then 0 else Total(g[..|g| - 1]) + g[|g| - 1].length
  }

  /** Laid end to end from the start of the heap, in whole granules. */
  ghost predicate Laid(heap: Capability, g: seq<Capability>) {
    g == [] || (Laid(heap, g[..|g| - 1]) && g[|g| - 1].base == heap.base + Total(g[..|g| - 1])
                && g[|g| - 1].length % CAP_LEN == 0 && g[|g| - 1].tag)
  }

  /** Over any sequence of calls the ranges handed out lie end to end inside the heap, and while the heap
      capability lives what it still covers is the rest. */
  lemma {:induction false} Conserves(arch: Arch, heap: Capability, sizes: seq<u64>)
    requires heap.InSpace()
    ensures var (g, h) := (Granted(arch, heap, sizes), Run(arch, heap, sizes));
      && Laid(heap, g) && Total(g) <= heap.length
      && (h.tag ==> h.base == heap.base + Total(g) && h.length == heap.length - Total(g) && h.InSpace())
      && (g == [] ==> h == heap || !h.tag)
    decreases |sizes|
  {
    if sizes != [] {
      var before, size := sizes[..|sizes| - 1], sizes[|sizes| - 1];
      Conserves(arch, heap, before);
      var g, h := Granted(arch, heap, before), Run(arch, heap, before);
      assert g + [] == g;
      if !h.tag {
        Untagged(arch, h, size);
      } else if AfterAlloc(arch, h, size).ok {
        SplitsTheHeap(arch, h, size);
        var g' := g + [AfterAlloc(arch, h, size).dst];
        assert g'[..|g'| - 1] == g;
      } else {
        FailureIsFinal(arch, h, size);
      }
    }
  }

  lemma Untagged(arch: Arch, heap: Capability, size: u64)
    requires !heap.tag
    ensures !AfterAlloc(arch, heap, size).ok && AfterAlloc(arch, heap, size).heap == heap
  {
  }

  /** Once the heap capability has lost its tag no later call succeeds. */
  lemma {:induction false} NothingAfterTheTag(arch: Arch, heap: Capability, sizes: seq<u64>)
    requires !heap.tag
    ensures Granted(arch, heap, sizes) == [] && Run(arch, heap, sizes) == heap
    decreases |sizes|
  {
    if sizes != [] {
      NothingAfterTheTag(arch, heap, sizes[..|sizes| - 1]);
      Untagged(arch, heap, sizes[|sizes| - 1]);
    }
  }

  /** Of two ranges handed out the earlier ends before the later begins; both are inside the heap, and
      aligned if the heap is. */
  lemma {:induction false} LaidApart(heap: Capability, g: seq<Capability>, i: nat, j: nat)
    requires Laid(heap, g) && i < j < |g|
    ensures heap.base <= g[i].base && g[i].base + g[i].length <= g[j].base
    ensures g[j].base + g[j].length <= heap.base + Total(g)
    decreases |g|
  {
    var front := g[..|g| - 1];
    LaidWithin(heap, front, i);
    if j < |g| - 1 {
      LaidApart(heap, front, i, j);
    }
  }

  lemma {:induction false} LaidWithin(heap: Capability, g: seq<Capability>, i: nat)
    requires Laid(heap, g) && i < |g|
    ensures heap.base <= g[i].base && g[i].base + g[i].length <= heap.base + Total(g)
    ensures heap.base % CAP_LEN == 0 ==> g[i].base % CAP_LEN == 0
    decreases |g|
  {
    var front := g[..|g| - 1];
    if i < |g| - 1 {
      LaidWithin(heap, front, i);
    } else {
      TotalWhole(heap, front);
      WholeSum(heap.base, Total(front));
    }
  }

  lemma WholeSum(a: nat, b: nat)
    requires b % CAP_LEN == 0
    ensures a % CAP_LEN == 0 ==> (a + b) % CAP_LEN == 0
  {
  }

  lemma {:induction false} TotalWhole(heap: Capability, g: seq<Capability>)
    requires Laid(heap, g)
    ensures Total(g) % CAP_LEN == 0
    decreases |g|
  {
    if g != [] {
      TotalWhole(heap, g[..|g| - 1]);
    }
  }

  // ----- the Proteus variant

  function ProteusInit(arch: Arch, heap: Capability): Capability {
    var aligned := Rounded(heap.address);
    if aligned == heap.address then heap
    else
      BoundsSetExact(arch, AddressSet(arch, heap, aligned), (heap.length - (aligned - heap.address)) % TWO64)
  }

  /** No tag is looked at; the rest of the heap is taken at an offset from its base. */
  function ProteusAlloc(arch: Arch, heap: Capability, size: u64): Allocation {
    var n := Rounded(size);
    var dst := BoundsSetExact(arch, heap, n);
    var rest := BoundsSetExact(arch,
      AddressSet(arch, heap, (heap.base + n) % TWO64), (heap.length - n) % TWO64);
    Allocation(rest, dst, dst.tag && rest.tag)
  }

  /** A heap that keeps its tag through initialisation is aligned, and starts where it points unless it
      was aligned inside a longer range from the start. */
  lemma ProteusInitAligns(arch: Arch, heap: Capability)
    requires heap.InSpace() && ProteusInit(arch, heap).tag
    ensures var h := ProteusInit(arch, heap);
      && h.address % CAP_LEN == 0
      && (h.address == h.base <==> heap.address % CAP_LEN != 0 || heap.address == heap.base)
  {
    RoundedCovers(heap.address);
  }

  /** Aligning gives up only the bytes in front: the range ends as far after the address as before, and nothing else
      changes. An address in the last granule of the address space, if that is not aligned, wraps to zero. */
  lemma ProteusInitEnds(arch: Arch, heap: Capability)
    requires heap.InSpace() && ProteusInit(arch, heap).tag
    ensures var h := ProteusInit(arch, heap);
      && h.perms == heap.perms && h.otype == heap.otype && heap.tag
      && (heap.address % CAP_LEN == 0 ==> h == heap)
      && (heap.address % CAP_LEN != 0 ==> h.base == h.address)
      && (heap.address % CAP_LEN != 0 && heap.address <= TWO64 - CAP_LEN ==>
            heap.address < h.address < heap.address + 16 && h.base + h.length == heap.address + heap.length)
      && (heap.address > TWO64 - CAP_LEN ==> h.address == 0)
  {
    RoundedCovers(heap.address);
  }

  /** On a heap that starts where it points the two allocators do the same, except that a request that
      does not fit kills the Proteus heap and leaves the Morello one alone. */
  lemma ProteusAgrees(arch: Arch, heap: Capability, size: u64)
    requires heap.InSpace() && heap.address == heap.base
    ensures AfterAlloc(arch, heap, size).dst == ProteusAlloc(arch, heap, size).dst
    ensures AfterAlloc(arch, heap, size).dst.tag ==> AfterAlloc(arch, heap, size) == ProteusAlloc(arch, heap, size)
    ensures Rounded(size) > heap.length ==>
      !ProteusAlloc(arch, heap, size).heap.tag && AfterAlloc(arch, heap, size).heap == heap
  {
  }

  /** What Proteus hands out is apart from the heap it keeps exactly when the heap starts where it points
      or nothing was asked for. */
  lemma ProteusApartIff(arch: Arch, heap: Capability, size: u64)
    requires heap.InSpace() && ProteusAlloc(arch, heap, size).ok
    ensures var a := ProteusAlloc(arch, heap, size);
      (forall x :: !(Reaches(a.dst, x) && Reaches(a.heap, x))) <==> heap.address == heap.base || Rounded(size) == 0
  {
    var a, n := ProteusAlloc(arch, heap, size), Rounded(size);
    if heap.address != heap.base && n > 0 {
      var x := if heap.address < heap.base + n then heap.base + n else heap.address;
      assert Reaches(a.dst, x) && Reaches(a.heap, x);
    }
  }

  /** A heap that was aligned from the start and points one granule past its base: of 32 bytes granted, the last
      16 stay in the heap too. */
  lemma ProteusOverlaps(arch: Arch)
    requires arch.exact(0x1010, 32) && arch.exact(0x1020, 0xE0) && arch.representable(0x1000, 0x100, 0x1020)
    ensures var heap := Capability(true, 0x1000, 0x100, 0x1010, {LoadPerm, StorePerm}, OTYPE_UNSEALED);
      var a := ProteusAlloc(arch, ProteusInit(arch, heap), 32);
      && ProteusInit(arch, heap) == heap && a.ok
      && a.dst.base == 0x1010 && a.dst.length == 32 && a.heap.base == 0x1020
      && (forall x :: Reaches(a.dst, x) && Reaches(a.heap, x) <==> 0x1020 <= x < 0x1030)
  {
  }

  class ProteusAllocator {
    const arch: Arch
    var heapCap: Capability

    constructor (arch: Arch, heap: Capability)
      ensures this.arch == arch && heapCap == ProteusInit(arch, heap)
    {
      this.arch := arch;
      this.heapCap := heap;
      new;
      var aligned := Rounded(heap.address);
      if aligned != heap.address {
        heapCap := AddressSet(arch, heapCap, aligned);
        var diff := aligned - heap.address;
        heapCap := BoundsSetExact(arch, heapCap, (heapCap.length - diff) % TWO64);
      }
    }

    method Alloc(size: u64) returns (dst: Capability)
      modifies this
      ensures var a := ProteusAlloc(arch, old(heapCap), size);
        dst == a.dst && heapCap == a.heap
    {
      var n := Rounded(size);
      dst := heapCap;
      dst := BoundsSetExact(arch, dst, n);
      heapCap := AddressSet(arch, heapCap, (heapCap.base + n) % TWO64);
      heapCap := BoundsSetExact(arch, heapCap, (heapCap.length - n) % TWO64);
    }
  }
}

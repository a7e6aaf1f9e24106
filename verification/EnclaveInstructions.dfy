/** The three enclave instructions of the monitor: EInitCode, EInitData and EStoreId. Each is given both
    as a function of the state and as the code, which is proved to compute that function. */
module EnclaveInstructions {
  import opened Words
  import opened Capabilities
  import opened EnclaveId
  import opened IdentityStore
  import opened Sweep

  datatype Memory = Memory(bytes: map<int, byte>, caps: Granules)

  function ByteAt(mem: Memory, a: int): byte {
    if a in mem.bytes then mem.bytes[a] else 0
  }

  /** Writing a byte leaves no capability in its granule. */
  function PutByte(mem: Memory, a: u64, b: byte): Memory {
    Memory(mem.bytes[a := b], mem.caps - {a - a % CAP_LEN})
  }

  /** The bytes that encode a capability in memory. */
  type CapImage = s: seq<byte> | |s| == CAP_LEN witness seq(CAP_LEN, i => 0)

  predicate InGranule(a: int, i: int) {
    a <= i < a + CAP_LEN
  }

  /** Writing a capability, and the bytes that encode it. */
  function PutCap(mem: Memory, a: u64, c: Capability, image: CapImage): Memory {
    Memory(mem.bytes + (map i: int | a <= i < a + CAP_LEN && InGranule(a, i) :: image[i - a]), mem.caps[a := c])
  }

  lemma PutCapReadBack(mem: Memory, a: u64, c: Capability, image: CapImage, i: int)
    ensures ByteAt(PutCap(mem, a, c, image), i) == if InGranule(a, i) then image[i - a] else ByteAt(mem, i)
  {
  }

  /** Writing a capability touches no other granule's. */
  lemma PutCapKeepsOthers(mem: Memory, a: u64, c: Capability, image: CapImage, g: u64)
    ensures var mem' := PutCap(mem, a, c, image);
      && a in mem'.caps && mem'.caps[a] == c
      && (g != a ==> (g in mem'.caps <==> g in mem.caps) && (g in mem.caps ==> mem'.caps[g] == mem.caps[g]))
  {
  }

  function Section(mem: Memory, a: int, n: nat): (s: seq<byte>)
    ensures |s| == n
  {
    seq<byte>(n, i => ByteAt(mem, a + i))
  }

  /** What an instruction finds when it is called: EL1 may have changed any of it since the last call. How the
      processor encodes a capability is part of it. */
  datatype World = World(
    arch: Arch, root: Capability, regs: seq<Capability>, special: seq<Capability>, el1: Capability, mem: Memory,
    image: Capability -> CapImage)

  predicate Sane(w: World) {
    |w.regs| == NUM_REG && |w.special| == NUM_SPECIAL && IsMemory(w.el1)
  }

  /** Undefined is what C leaves so. */
  datatype Outcome = Returned(cap: Capability) | Answer(ok: bool) | Failed | Fault | Undefined

  // ----- the hash of a code section

  datatype Hashing = Hashed(hash: Hash) | NotHashed | HashFaulted | HashUndefined

  /** The end of the range of an int. */
  const INT_LIMIT: nat := 0x8000_0000

  /** A section that is not a whole number of instructions is not hashed; an empty one faults. After 2 GiB
      the loop counter overflows, which C leaves undefined. */
  function HashResult(digest: seq<byte> -> Hash, mem: Memory, code: Capability): Hashing {
    if code.length % 4 != 0 then NotHashed
    else if code.length == 0 then HashFaulted
    else if code.length < INT_LIMIT then
      if code.MayAccess(LoadPerm, code.address, code.length)
      then Hashed(digest(Section(mem, code.address, code.length))) else HashFaulted
    else if code.MayAccess(LoadPerm, code.address, INT_LIMIT) then HashUndefined else HashFaulted
  }

  /** Feeds the section to the hash one instruction at a time. */
  method GenerateHash(digest: seq<byte> -> Hash, mem: Memory, code: Capability) returns (r: Hashing)
    ensures r == HashResult(digest, mem, code)
  {
    if code.length % 4 != 0 {
      return NotHashed;
    }
    var md: seq<byte> := [];
    var i: nat := 0;
    var end := (code.length - 4 + 1) % TWO64;
    while i < end
      invariant i % 4 == 0 && i <= end + 3 && i < INT_LIMIT
      invariant code.length > 0 ==> end == code.length - 3
      invariant md == Section(mem, code.address, i)
      invariant i > 0 ==> code.MayAccess(LoadPerm, code.address, i)
      decreases end - i
    {
      if !code.MayAccess(LoadPerm, code.address + i, 4) {
        return HashFaulted;
      }
      md := md + Section(mem, code.address + i, 4);
      if i + 4 >= INT_LIMIT {
        return HashUndefined;
      }
      i := i + 4;
    }
    assert i == code.length;
    r := Hashed(digest(md));
  }

  /** The section is hashed exactly when it is a positive whole number of instructions below 2 GiB, readable,
      and the capability points at its start. */
  lemma HashedIff(digest: seq<byte> -> Hash, mem: Memory, code: Capability)
    ensures HashResult(digest, mem, code).Hashed?
        <==> code.length % 4 == 0 && 0 < code.length < INT_LIMIT && code.address == code.base && code.Usable(LoadPerm)
  {
  }

  // ----- the instructions as functions

  function AfterInitCode(s: Ledger, w: World, code: Capability): (Ledger, Outcome) {
    var (s', id) := AfterInitEntry(s);
    if id == INVALID then (s', Failed)
    else (s', Returned(Seal(code, IdentSeal(w.arch, w.root, id))))
  }

  ghost function AfterInitData(digest: seq<byte> -> Hash, s: Ledger, w: World, sealedCode: Capability, data: Capability,
      garbage: Hash): (Ledger, Memory, Outcome)
    requires Sane(w)
  {
    var id := UnfinishedID(s, sealedCode.otype);
    if id == INVALID then (s, w.mem, Failed) else
    var code := Unseal(sealedCode, IdentSeal(w.arch, w.root, id));
    var swept := SweepResult(code, data, w.regs, w.special, w.el1, w.mem.caps);
    if swept == Faulted then (s, w.mem, Fault) else
    if swept == Found then (s, w.mem, Failed) else
    var hashing := HashResult(digest, w.mem, code);
    if hashing == HashFaulted then (s, w.mem, Fault) else
    if hashing == HashUndefined then (s, w.mem, Undefined) else
    var (s', ok) := AfterFinish(s, sealedCode.otype, if hashing.Hashed? then hashing.hash else garbage);
    if !ok then (s', w.mem, Failed) else
    if !MayStoreCap(data) then (s', w.mem, Fault) else
    var seals := SignEncSeal(w.arch, w.root, id);
    (s', PutCap(w.mem, data.address, seals, w.image(seals)),
      Returned(Seal(data, IdentSeal(w.arch, w.root, id))))
  }

  predicate MayStoreCap(c: Capability) {
    c.MayAccessCap(StoreCapPerm, c.address) && StorePerm in c.perms
  }

  /** The room a capability has left, as the code computes it in 64 bits. */
  function Room(c: Capability): u64 {
    (c.length - c.Offset()) % TWO64
  }

  function AfterStoreId(s: Ledger, w: World, otype: u64, memHash: Capability): (Memory, Outcome)
    requires memHash.InSpace()
  {
    if memHash.Sealed() || StorePerm !in memHash.perms || Room(memHash) < HASH_BYTES then (w.mem, Answer(false)) else
    match HashOf(s, otype)
    case None => (w.mem, Answer(false))
    case Some(hash) =>
      if !memHash.MayAccess(StorePerm, memHash.address, HASH_BYTES) then (w.mem, Fault)
      else (PutBytes(w.mem, memHash.address, hash), Answer(true))
  }

  function PutBytes(mem: Memory, a: u64, bytes: seq<byte>): (r: Memory)
    requires a + |bytes| <= TWO64
    decreases |bytes|
  {
    if bytes == [] then mem
    else PutByte(PutBytes(mem, a, bytes[..|bytes| - 1]), a + |bytes| - 1, bytes[|bytes| - 1])
  }

  lemma {:induction false} PutBytesReadBack(mem: Memory, a: u64, bytes: seq<byte>, i: int)
    requires a + |bytes| <= TWO64
    ensures ByteAt(PutBytes(mem, a, bytes), i) == if a <= i < a + |bytes| then bytes[i - a] else ByteAt(mem, i)
    decreases |bytes|
  {
    if bytes != [] {
      PutBytesReadBack(mem, a, bytes[..|bytes| - 1], i);
    }
  }

  /** It leaves no capability in a granule of which it has written a byte, and every other one as it was. */
  lemma {:induction false} PutBytesClearsCaps(mem: Memory, a: u64, bytes: seq<byte>, g: u64)
    requires a + |bytes| <= TWO64 && g % CAP_LEN == 0
    ensures var mem' := PutBytes(mem, a, bytes);
      && (g in mem'.caps <==> g in mem.caps && (bytes == [] || g + CAP_LEN <= a || a + |bytes| <= g))
      && (g in mem'.caps ==> mem'.caps[g] == mem.caps[g])
    decreases |bytes|
  {
    if bytes != [] {
      var last := a + |bytes| - 1;
      PutBytesClearsCaps(mem, a, bytes[..|bytes| - 1], g);
      assert last - last % CAP_LEN == g <==> g <= last < g + CAP_LEN;
    }
  }

  /** Inside the capability's range, end included, the room check asks for 32 bytes. Outside it the subtraction
      wraps, and the check passes below the range unless all the address space lies between the address and
      the end of the range, and above it unless the address is within 32 bytes of coming round again. */
  lemma RoomCheck(c: Capability)
    requires c.InSpace()
    ensures Room(c) >= HASH_BYTES
        <==> if c.address < c.base then HASH_BYTES <= c.base + c.length - c.address < TWO64
             else if c.address <= c.base + c.length then c.Covers(c.address, HASH_BYTES)
             else c.address - (c.base + c.length) <= TWO64 - HASH_BYTES
  {
    var room: int := c.base + c.length - c.address;
    assert Room(c) == if room < 0 then room + TWO64 else if room < TWO64 then room else room - TWO64;
  }

  /** The hash is stored exactly when the capability can take it at its address and the entry is
      finished. */
  lemma StoreIdSucceeds(s: Ledger, w: World, otype: u64, memHash: Capability)
    requires memHash.InSpace()
    ensures AfterStoreId(s, w, otype, memHash).1 == Answer(true)
        <==> memHash.MayAccess(StorePerm, memHash.address, HASH_BYTES) && HashOf(s, otype).Some?
  {
    RoomCheck(memHash);
  }

  /** It faults exactly when the entry is finished and the room check passes all the same: inside the range for
      want of a tag, which nothing looks at, and outside it because the subtraction wrapped. */
  lemma StoreIdFaults(s: Ledger, w: World, otype: u64, memHash: Capability)
    requires memHash.InSpace()
    ensures AfterStoreId(s, w, otype, memHash).1 == Fault
        <==> HashOf(s, otype).Some? && !memHash.Sealed() && StorePerm in memHash.perms
             && if memHash.base <= memHash.address <= memHash.base + memHash.length
                then !memHash.tag && memHash.Covers(memHash.address, HASH_BYTES)
                else Room(memHash) >= HASH_BYTES
  {
    RoomCheck(memHash);
  }

  /** Any other call answers false. What it writes is the hash where it answers true, and nothing otherwise. */
  lemma StoreIdRefuses(s: Ledger, w: World, otype: u64, memHash: Capability)
    requires memHash.InSpace()
    ensures AfterStoreId(s, w, otype, memHash).1 == Answer(false)
        <==> memHash.otype != OTYPE_UNSEALED || StorePerm !in memHash.perms || HashOf(s, otype) == None
             || (if memHash.base <= memHash.address <= memHash.base + memHash.length
                 then memHash.address + 32 > memHash.base + memHash.length
                 else (memHash.base + memHash.length - memHash.address) % TWO64 < 32)
    ensures AfterStoreId(s, w, otype, memHash).1 != Answer(true) ==> AfterStoreId(s, w, otype, memHash).0 == w.mem
    ensures AfterStoreId(s, w, otype, memHash).1 == Answer(true) ==>
      HashOf(s, otype).Some? && memHash.address + 32 <= TWO64
      && AfterStoreId(s, w, otype, memHash).0 == PutBytes(w.mem, memHash.address, HashOf(s, otype).value)
  {
    RoomCheck(memHash);
  }

  /** Two destinations with room for 33 bytes that make it fault: an untagged one, and one that points
      below its range. */
  lemma StoreIdCanFault(s: Ledger, w: World, otype: u64)
    requires HashOf(s, otype).Some?
    ensures AfterStoreId(s, w, otype, Capability(false, 0x3000, 33, 0x3000, {StorePerm}, 0)).1 == Fault
    ensures AfterStoreId(s, w, otype, Capability(true, 0x3000, 33, 0x2FFF, {StorePerm}, 0)).1 == Fault
  {
  }

  // ----- the code

  class Monitor {
    const digest: seq<byte> -> Hash
    const store: IdentityStore

    constructor (digest: seq<byte> -> Hash)
      ensures store.Valid() && fresh(store) && fresh(store.table) && store.State() == Initial()
      ensures this.digest == digest
    {
      this.digest := digest;
      this.store := new IdentityStore();
    }

    method EInitCode(w: World, code: Capability) returns (r: Outcome)
      requires store.Valid()
      modifies store, store.table
      ensures store.Valid() && (store.State(), r) == AfterInitCode(old(store.State()), w, code)
    {
      var id := store.InitEntry();
      if id == INVALID {
        return Failed;
      }
      var seal := IdentSeal(w.arch, w.root, id);
      r := Returned(Seal(code, seal));
    }

    method EInitData(w: World, sealedCode: Capability, data: Capability, garbage: Hash)
        returns (mem: Memory, r: Outcome)
      requires store.Valid() && Sane(w)
      modifies store.table
      ensures store.Valid()
      ensures (store.State(), mem, r) == AfterInitData(digest, old(store.State()), w, sealedCode, data, garbage)
    {
      mem := w.mem;
      var otype := sealedCode.otype;
      var id := store.GetUnfinishedEntryID(otype);
      if id == INVALID {
        return mem, Failed;
      }
      var seal := IdentSeal(w.arch, w.root, id);
      var code := Unseal(sealedCode, seal);
      var swept := RunSweep(code, data, w.regs, w.special, w.el1, w.mem.caps);
      if swept == Faulted {
        return mem, Fault;
      }
      if swept == Found {
        return mem, Failed;
      }
      var hash := garbage;
      var hashing := GenerateHash(digest, mem, code);
      if hashing == HashFaulted {
        return mem, Fault;
      }
      if hashing == HashUndefined {
        return mem, Undefined;
      }
      if hashing.Hashed? {
        hash := hashing.hash;
      }
      var ok := store.FinishEntry(otype, hash);
      if !ok {
        return mem, Failed;
      }
      var signEnc := SignEncSeal(w.arch, w.root, id);
      if !MayStoreCap(data) {
        return mem, Fault;
      }
      mem := PutCap(mem, data.address, signEnc, w.image(signEnc));
      r := Returned(Seal(data, seal));
    }

    method EStoreId(w: World, otype: u64, memHash: Capability) returns (mem: Memory, r: Outcome)
      requires store.Valid() && memHash.InSpace()
      ensures (mem, r) == AfterStoreId(store.State(), w, otype, memHash)
    {
      mem := w.mem;
      var lengthCheck := Room(memHash);
      if !(!memHash.Sealed() && StorePerm in memHash.perms && lengthCheck >= HASH_BYTES) {
        return mem, Answer(false);
      }
      var hash := store.GetHashEntry(otype);
      if hash.None? {
        return mem, Answer(false);
      }
      RoomCheck(memHash);
      var i := 0;
      while i < HASH_BYTES
        invariant 0 <= i <= HASH_BYTES
        invariant i > 0 ==> memHash.MayAccess(StorePerm, memHash.address, HASH_BYTES)
        invariant memHash.address + i <= TWO64 && mem == PutBytes(w.mem, memHash.address, hash.value[..i])
      {
        if !memHash.MayAccess(StorePerm, memHash.address + i, 1) {
          return mem, Fault;
        }
        mem := PutByte(mem, memHash.address + i, hash.value[i]);
        assert hash.value[..i + 1][..i] == hash.value[..i];
        i := i + 1;
      }
      assert hash.value[..HASH_BYTES] == hash.value;
      r := Answer(true);
    }
  }
}

/** Whole runs of the monitor: any sequence of the three instructions, each called in any world. */
module EnclaveRuns {
  import opened Words
  import opened Capabilities
  import opened EnclaveId
  import opened IdentityStore
  import opened Sweep
  import opened EnclaveInstructions

  datatype Op =
    | InitCode(w: World, code: Capability)
    | InitData(w: World, sealedCode: Capability, data: Capability, garbage: Hash)
    | StoreId(w: World, otype: u64, memHash: Capability)

  predicate ValidOp(op: Op) {
    Sane(op.w) && (op.StoreId? ==> op.memHash.InSpace())
  }

  ghost function Step(digest: seq<byte> -> Hash, s: Ledger, op: Op): (Ledger, Outcome)
    requires ValidOp(op)
  {
    match op
    case InitCode(w, code) => AfterInitCode(s, w, code)
    case InitData(w, sealedCode, data, garbage) =>
      var (s', mem, r) := AfterInitData(digest, s, w, sealedCode, data, garbage);
      (s', r)
    case StoreId(w, otype, memHash) => (s, AfterStoreId(s, w, otype, memHash).1)
  }

  ghost predicate ValidOps(ops: seq<Op>) {
    forall i :: 0 <= i < |ops| ==> ValidOp(ops[i])
  }

  ghost function Run(digest: seq<byte> -> Hash, s: Ledger, ops: seq<Op>): Ledger
    requires ValidOps(ops)
  {
    if ops == [] then s else Step(digest, Run(digest, s, ops[..|ops| - 1]), ops[|ops| - 1]).0
  }

  /** The code goes through the same states. */
  method Drive(digest: seq<byte> -> Hash, ops: seq<Op>) returns (m: Monitor)
    requires ValidOps(ops)
    ensures m.store.Valid() && m.store.State() == Run(digest, Initial(), ops)
  {
    m := new Monitor(digest);
    var i := 0;
    while i < |ops|
      invariant 0 <= i <= |ops| && fresh(m.store) && fresh(m.store.table)
      invariant m.store.Valid() && m.digest == digest && m.store.State() == Run(digest, Initial(), ops[..i])
    {
      assert ops[..i + 1][..i] == ops[..i];
      match ops[i] {
        case InitCode(w, code) =>
          var _ := m.EInitCode(w, code);
        case InitData(w, sealedCode, data, garbage) =>
          var _, _ := m.EInitData(w, sealedCode, data, garbage);
        case StoreId(w, otype, memHash) =>
          var _, _ := m.EStoreId(w, otype, memHash);
      }
      i := i + 1;
    }
    assert ops[..|ops|] == ops;
  }

  // ----- the invariant, and what never changes back

  /** The later state knows all the earlier one does: identifiers stay issued, and a finished entry stays
      finished with the same hash. */
  ghost predicate Extends(s: Ledger, s': Ledger)
    requires Inv(s) && Inv(s')
  {
    && s.counter <= s'.counter
    && (forall k :: 0 <= k < MAX_ENTRIES && s.table[k].ready ==>
          s'.table[k].ready && s'.table[k].hash == s.table[k].hash)
  }

  lemma {:induction false} StepKeeps(digest: seq<byte> -> Hash, s: Ledger, op: Op)
    requires Inv(s) && ValidOp(op)
    ensures Inv(Step(digest, s, op).0) && Extends(s, Step(digest, s, op).0)
    ensures Step(digest, s, op).0.counter == s.counter + if op.InitCode? && s.counter <= MAX_ENTRIES then 1 else 0
  {
    match op
    case InitCode(w, code) =>
      InitEntryInv(s);
    case InitData(w, sealedCode, data, garbage) =>
      var code := Unseal(sealedCode, IdentSeal(w.arch, w.root, UnfinishedID(s, sealedCode.otype)));
      var hashing := HashResult(digest, w.mem, code);
      FinishInv(s, sealedCode.otype, if hashing.Hashed? then hashing.hash else garbage);
    case StoreId(w, otype, memHash) =>
  }

  lemma {:induction false} RunKeeps(digest: seq<byte> -> Hash, s: Ledger, ops: seq<Op>)
    requires Inv(s) && ValidOps(ops)
    ensures Inv(Run(digest, s, ops)) && Extends(s, Run(digest, s, ops))
    decreases |ops|
  {
    if ops != [] {
      RunKeeps(digest, s, ops[..|ops| - 1]);
      StepKeeps(digest, Run(digest, s, ops[..|ops| - 1]), ops[|ops| - 1]);
    }
  }

  /** Every run from the start keeps the table invariant. */
  lemma EveryRunIsSafe(digest: seq<byte> -> Hash, ops: seq<Op>)
    requires ValidOps(ops)
    ensures Inv(Run(digest, Initial(), ops))
  {
    InitialInv();
    RunKeeps(digest, Initial(), ops);
  }

  // ----- slots

  function InitCodes(ops: seq<Op>): nat {
    if ops == [] then 0 else InitCodes(ops[..|ops| - 1]) + if ops[|ops| - 1].InitCode? then 1 else 0
  }

  /** Each EInitCode uses up a slot and an identifier, whether or not the code capability could be
      sealed, until the 32 are gone: after n of them the next identifier is n + 1. */
  lemma {:induction false} SlotsAreCounted(digest: seq<byte> -> Hash, ops: seq<Op>)
    requires ValidOps(ops)
    ensures Inv(Run(digest, Initial(), ops))
    ensures Run(digest, Initial(), ops).counter
         == 1 + if InitCodes(ops) <= MAX_ENTRIES then InitCodes(ops) else MAX_ENTRIES
    decreases |ops|
  {
    EveryRunIsSafe(digest, ops);
    if ops != [] {
      var s := Run(digest, Initial(), ops[..|ops| - 1]);
      SlotsAreCounted(digest, ops[..|ops| - 1]);
      StepKeeps(digest, s, ops[|ops| - 1]);
    }
  }

  /** EInitCode fails exactly from the 33rd call on, whatever else was called in between. */
  lemma InitCodeFailsWhenFull(digest: seq<byte> -> Hash, ops: seq<Op>, w: World, code: Capability)
    requires ValidOps(ops)
    ensures AfterInitCode(Run(digest, Initial(), ops), w, code).1 == Failed <==> InitCodes(ops) >= MAX_ENTRIES
  {
    SlotsAreCounted(digest, ops);
    InitEntryInv(Run(digest, Initial(), ops));
  }

  /** The object types of every identifier that a run issues are above the reserved ones and in range. */
  lemma IssuedTypesInRange(digest: seq<byte> -> Hash, ops: seq<Op>, id: u64, j: nat)
    requires ValidOps(ops) && Issued(Run(digest, Initial(), ops), id) && j < 4
    ensures 3 < Plus64(GetOtype(id), j) < OTYPE_RANGE_END
    ensures AssignIDFromOtype(Plus64(GetOtype(id), j)) == id
  {
    EveryRunIsSafe(digest, ops);
    OtypesInRange(id);
    OtypesLeadBack(id, j);
  }

  // ----- the code capability makes the round trip

  /** The section EInitData would attest. */
  function CodeOf(s: Ledger, w: World, sealedCode: Capability): Capability {
    Unseal(sealedCode, IdentSeal(w.arch, w.root, UnfinishedID(s, sealedCode.otype)))
  }

  ghost predicate Platform(w: World) {
    IsMorello(w.arch) && IsRoot(w.root)
  }

  /** EInitCode fails exactly when the table is full, and then changes nothing; otherwise it takes the next entry
      and returns the code sealed with the third object type of its identifier, or untagged if it could not be. */
  lemma InitCodeOutcome(s: Ledger, w: World, code: Capability)
    requires Inv(s) && Platform(w)
    ensures var (s', r) := AfterInitCode(s, w, code);
      if s.counter == 33 then r == Failed && s' == s
      else
        && r.Returned? && r.cap == code.(otype := 4 * s.counter + 2, tag := code.tag && code.otype == 0)
        && s' == Ledger(s.table[s.counter - 1 := s.table[s.counter - 1].(used := true, id := s.counter)], s.counter + 1)
  {
    InitEntryInv(s);
    if s.counter <= MAX_ENTRIES {
      SealingCapability(w.arch, w.root, 4 * s.counter + 2, 1);
    }
  }

  /** EInitCode seals with an object type of the new identifier, and EInitData's seal for that identifier
      takes it off again. */
  lemma {:induction false} SealedCodeUnseals(s: Ledger, w: World, code: Capability, w': World)
    requires Inv(s) && Platform(w) && Platform(w')
    requires code.tag && !code.Sealed() && s.counter <= MAX_ENTRIES
    ensures var (s', r) := AfterInitCode(s, w, code);
      && Inv(s') && Issued(s', s.counter) && !IsReady(s', s.counter)
      && r.Returned? && r.cap.tag && r.cap.otype == 4 * s.counter + 2
      && Unseal(r.cap, IdentSeal(w'.arch, w'.root, s.counter)) == code
  {
    InitEntryInv(s);
    SealingCapability(w.arch, w.root, 4 * s.counter + 2, 1);
    SealingCapability(w'.arch, w'.root, 4 * s.counter + 2, 1);
    SealUnseal(code, IdentSeal(w.arch, w.root, s.counter), IdentSeal(w'.arch, w'.root, s.counter));
  }

  /** What EInitCode sealed, EInitData finds under the same identifier and unseals to the original, after
      any number of other calls, unless it was finished already. */
  lemma {:induction false} SealedCodeLeadsBack(digest: seq<byte> -> Hash, s: Ledger, w: World, code: Capability,
      ops: seq<Op>, w': World)
    requires Inv(s) && Platform(w) && Platform(w') && ValidOps(ops)
    requires code.tag && !code.Sealed() && s.counter <= MAX_ENTRIES
    ensures var (s', r) := AfterInitCode(s, w, code);
      var later := Run(digest, s', ops);
      && r.Returned? && Inv(later) && Issued(later, s.counter)
      && UnfinishedID(later, r.cap.otype) == (if IsReady(later, s.counter) then INVALID else s.counter)
      && (!IsReady(later, s.counter) ==> CodeOf(later, w', r.cap) == code)
  {
    SealedCodeUnseals(s, w, code, w');
    var s' := AfterInitCode(s, w, code).0;
    RunKeeps(digest, s', ops);
    Searches(Run(digest, s', ops), s.counter);
  }

  // ----- attestation

  /** The hash it stores: of the section if that is a whole number of instructions, and otherwise whatever
      the uninitialised buffer held. */
  function Attested(digest: seq<byte> -> Hash, mem: Memory, code: Capability, garbage: Hash): Hash {
    if code.length % 4 == 0 then digest(Section(mem, code.address, code.length)) else garbage
  }

  /** What one successful EInitData establishes: the sweep was clear, the entry that was
      unfinished is finished with the attested hash, and the seals are in place. */
  lemma {:induction false} InitDataEstablishes(digest: seq<byte> -> Hash, s: Ledger, w: World, sealedCode: Capability,
      data: Capability, garbage: Hash)
    requires Inv(s) && Sane(w)
    requires AfterInitData(digest, s, w, sealedCode, data, garbage).2.Returned?
    ensures var id := AssignIDFromOtype(sealedCode.otype);
      var code := CodeOf(s, w, sealedCode);
      var (s', mem, r) := AfterInitData(digest, s, w, sealedCode, data, garbage);
      && SweepResult(code, data, w.regs, w.special, w.el1, w.mem.caps) == Clear
      && Inv(s') && Issued(s, id) && !IsReady(s, id) && IsReady(s', id)
      && s'.table[id - 1].hash == Attested(digest, w.mem, code, garbage)
      && (code.length % 4 == 0 ==> code.address == code.base && code.Usable(LoadPerm))
      && data.address in mem.caps && mem.caps[data.address] == SignEncSeal(w.arch, w.root, id)
      && r.cap == Seal(data, IdentSeal(w.arch, w.root, id))
  {
    var code := CodeOf(s, w, sealedCode);
    var hashing := HashResult(digest, w.mem, code);
    FinishInv(s, sealedCode.otype, if hashing.Hashed? then hashing.hash else garbage);
    HashedIff(digest, w.mem, code);
  }

  /** Once EInitData has succeeded, every later state of every run gives that hash for all four object
      types of the enclave, and a second EInitData on it fails and changes nothing. In the state before the
      call there was no hash for any of them. */
  lemma {:induction false} AttestationIsFinal(digest: seq<byte> -> Hash, s: Ledger, w: World, sealedCode: Capability,
      data: Capability, garbage: Hash, ops: seq<Op>, otype: u64)
    requires Inv(s) && Sane(w) && ValidOps(ops)
    requires AfterInitData(digest, s, w, sealedCode, data, garbage).2.Returned?
    requires AssignIDFromOtype(otype) == AssignIDFromOtype(sealedCode.otype)
    ensures var code := CodeOf(s, w, sealedCode);
      var later := Run(digest, AfterInitData(digest, s, w, sealedCode, data, garbage).0, ops);
      && HashOf(s, otype) == None
      && HashOf(later, otype) == Some(Attested(digest, w.mem, code, garbage))
      && UnfinishedID(later, otype) == INVALID
  {
    var id := AssignIDFromOtype(sealedCode.otype);
    InitDataEstablishes(digest, s, w, sealedCode, data, garbage);
    var s' := AfterInitData(digest, s, w, sealedCode, data, garbage).0;
    RunKeeps(digest, s', ops);
    var later := Run(digest, s', ops);
    HashOfReady(s, otype);
    HashOfReady(later, otype);
    Searches(later, id);
  }

  lemma SecondInitDataFails(digest: seq<byte> -> Hash, s: Ledger, w: World, sealedCode: Capability, data: Capability,
      garbage: Hash)
    requires Inv(s) && Sane(w) && IsReady(s, AssignIDFromOtype(sealedCode.otype))
    ensures AfterInitData(digest, s, w, sealedCode, data, garbage) == (s, w.mem, Failed)
  {
    Searches(s, AssignIDFromOtype(sealedCode.otype));
  }

  /** From code section to verifier: what EStoreId writes, at any later time and through any capability
      with room for it, is the hash of the section that EInitData found exclusive. */
  lemma {:induction false} StoredIdentity(digest: seq<byte> -> Hash, s: Ledger, w: World, sealedCode: Capability,
      data: Capability, garbage: Hash, ops: seq<Op>, w': World, otype: u64, memHash: Capability, i: int)
    requires Inv(s) && Sane(w) && ValidOps(ops) && 0 <= i < HASH_BYTES
    requires AfterInitData(digest, s, w, sealedCode, data, garbage).2.Returned?
    requires CodeOf(s, w, sealedCode).length % 4 == 0
    requires AssignIDFromOtype(otype) == AssignIDFromOtype(sealedCode.otype)
    requires memHash.InSpace() && memHash.MayAccess(StorePerm, memHash.address, HASH_BYTES)
    ensures var code := CodeOf(s, w, sealedCode);
      var later := Run(digest, AfterInitData(digest, s, w, sealedCode, data, garbage).0, ops);
      var (mem, r) := AfterStoreId(later, w', otype, memHash);
      r == Answer(true)
      && ByteAt(mem, memHash.address + i) == digest(Section(w.mem, code.base, code.length))[i]
  {
    AttestationIsFinal(digest, s, w, sealedCode, data, garbage, ops, otype);
    InitDataEstablishes(digest, s, w, sealedCode, data, garbage);
    var later := Run(digest, AfterInitData(digest, s, w, sealedCode, data, garbage).0, ops);
    StoresHash(later, w', otype, memHash, Attested(digest, w.mem, CodeOf(s, w, sealedCode), garbage), i);
  }

  lemma StoresHash(s: Ledger, w: World, otype: u64, memHash: Capability, h: Hash, i: int)
    requires HashOf(s, otype) == Some(h) && 0 <= i < HASH_BYTES
    requires memHash.InSpace() && memHash.MayAccess(StorePerm, memHash.address, HASH_BYTES)
    ensures var (mem, r) := AfterStoreId(s, w, otype, memHash);
      r == Answer(true) && ByteAt(mem, memHash.address + i) == h[i]
  {
    StoreIdSucceeds(s, w, otype, memHash);
    PutBytesReadBack(w.mem, memHash.address, h, memHash.address + i);
  }
}

/** When exactly an enclave counts as attested, over whole runs, and calls at which that is not when
    EInitData succeeds. */
module EnclaveAttestation {
  import opened Words
  import opened Capabilities
  import opened EnclaveId
  import opened IdentityStore
  import opened Sweep
  import opened EnclaveInstructions
  import opened EnclaveRuns

  // ----- one call

  /** EInitData gets as far as finishing the entry: the store through the data capability comes after. */
  ghost predicate Attests(digest: seq<byte> -> Hash, s: Ledger, w: World, sealedCode: Capability, data: Capability)
    requires Sane(w)
  {
    var code := CodeOf(s, w, sealedCode);
    && UnfinishedID(s, sealedCode.otype) != INVALID
    && SweepResult(code, data, w.regs, w.special, w.el1, w.mem.caps) == Clear
    && (code.length % 4 != 0 || HashResult(digest, w.mem, code).Hashed?)
  }

  /** A call that attests finishes the entry, with the hash of the section if that is a whole number of
      instructions; any other call leaves the table as it was. */
  lemma InitDataAttests(digest: seq<byte> -> Hash, s: Ledger, w: World, sealedCode: Capability, data: Capability,
      garbage: Hash)
    requires Inv(s) && Sane(w)
    ensures var id := AssignIDFromOtype(sealedCode.otype);
      var s' := AfterInitData(digest, s, w, sealedCode, data, garbage).0;
      if Attests(digest, s, w, sealedCode, data)
      then Issued(s, id) && !IsReady(s, id) && Issued(s', id) && s' == s.(table :=
             s.table[id - 1 := s.table[id - 1].(hash := Attested(digest, w.mem, CodeOf(s, w, sealedCode), garbage), ready := true)])
      else s' == s
  {
    var hashing := HashResult(digest, w.mem, CodeOf(s, w, sealedCode));
    FinishInv(s, sealedCode.otype, if hashing.Hashed? then hashing.hash else garbage);
  }

  /** EInitData succeeds exactly when it attests and can store the seals: with an unfinished entry, a clear
      sweep, and a section that could be hashed or is no whole number of instructions. */
  lemma InitDataReturnsIff(digest: seq<byte> -> Hash, s: Ledger, w: World, sealedCode: Capability, data: Capability,
      garbage: Hash)
    requires Inv(s) && Sane(w)
    ensures var code := CodeOf(s, w, sealedCode);
      AfterInitData(digest, s, w, sealedCode, data, garbage).2.Returned? <==>
        (UnfinishedID(s, sealedCode.otype) != INVALID
         && SweepResult(code, data, w.regs, w.special, w.el1, w.mem.caps) == Clear
         && (code.length % 4 != 0 || HashResult(digest, w.mem, code).Hashed?)
         && MayStoreCap(data))
  {
    var hashing := HashResult(digest, w.mem, CodeOf(s, w, sealedCode));
    FinishInv(s, sealedCode.otype, if hashing.Hashed? then hashing.hash else garbage);
  }

  /** A call that attests and cannot store the seals faults. */
  lemma AttestsAndFaults(digest: seq<byte> -> Hash, s: Ledger, w: World, sealedCode: Capability, data: Capability,
      garbage: Hash)
    requires Inv(s) && Sane(w) && Attests(digest, s, w, sealedCode, data)
    ensures AfterInitData(digest, s, w, sealedCode, data, garbage).2 == Fault <==> !MayStoreCap(data)
  {
    var hashing := HashResult(digest, w.mem, CodeOf(s, w, sealedCode));
    FinishInv(s, sealedCode.otype, if hashing.Hashed? then hashing.hash else garbage);
  }

  // ----- how a call ends, and what it leaves in memory

  /** Only a call that returns writes to memory. */
  lemma OnlySuccessWrites(digest: seq<byte> -> Hash, s: Ledger, w: World, sealedCode: Capability, data: Capability,
      garbage: Hash)
    requires Sane(w)
    ensures var (s', mem, r) := AfterInitData(digest, s, w, sealedCode, data, garbage);
      && (!r.Returned? ==> mem == w.mem)
      && (r.Returned? || r == Failed || r == Fault || r == Undefined)
  {
  }

  /** EInitData has an entry to work on: issued and not finished. */
  ghost predicate Pending(s: Ledger, otype: u64) {
    Issued(s, AssignIDFromOtype(otype)) && !IsReady(s, AssignIDFromOtype(otype))
  }

  /** What the sweep finds for a call. */
  ghost function Swept(s: Ledger, w: World, sealedCode: Capability, data: Capability): Scan
    requires Sane(w)
  {
    SweepResult(CodeOf(s, w, sealedCode), data, w.regs, w.special, w.el1, w.mem.caps)
  }

  /** It answers that it failed exactly when there is no such entry or the sweep found something, and then the
      table is as it was. */
  lemma InitDataFailsIff(digest: seq<byte> -> Hash, s: Ledger, w: World, sealedCode: Capability, data: Capability,
      garbage: Hash)
    requires Inv(s) && Sane(w)
    ensures var (s', mem, r) := AfterInitData(digest, s, w, sealedCode, data, garbage);
      && (r == Failed <==> !Pending(s, sealedCode.otype) || Swept(s, w, sealedCode, data) == Found)
      && (r == Failed ==> s' == s && mem == w.mem)
  {
    var hashing := HashResult(digest, w.mem, CodeOf(s, w, sealedCode));
    FinishInv(s, sealedCode.otype, if hashing.Hashed? then hashing.hash else garbage);
  }

  /** A 16-byte store through the data capability would be refused. */
  ghost predicate CannotTakeSeals(data: Capability) {
    !(data.tag && data.otype == OTYPE_UNSEALED && {StorePerm, StoreCapPerm} <= data.perms && data.address % 16 == 0
      && data.base <= data.address && data.address + 16 <= data.base + data.length)
  }

  /** A load from the code section would be refused before the counter overflows. */
  ghost predicate CannotRead(code: Capability) {
    code.length == 0 || !(code.tag && code.otype == OTYPE_UNSEALED && LoadPerm in code.perms && code.base <= code.address
      && code.address + (if code.length < 0x8000_0000 then code.length else 0x8000_0000) <= code.base + code.length)
  }

  /** It faults exactly in three places: in the sweep, on a whole number of instructions that cannot be read, and,
      the entry finished, on a data capability that cannot take the seals. */
  lemma InitDataFaultsIff(digest: seq<byte> -> Hash, s: Ledger, w: World, sealedCode: Capability, data: Capability,
      garbage: Hash)
    requires Inv(s) && Sane(w)
    ensures var code, swept := CodeOf(s, w, sealedCode), Swept(s, w, sealedCode, data);
      AfterInitData(digest, s, w, sealedCode, data, garbage).2 == Fault <==>
        (Pending(s, sealedCode.otype)
         && (swept == Faulted
             || (swept == Clear && code.length % 4 == 0 && CannotRead(code))
             || (swept == Clear && (code.length % 4 != 0 || (code.length < 0x8000_0000 && !CannotRead(code)))
                 && CannotTakeSeals(data))))
  {
    var hashing := HashResult(digest, w.mem, CodeOf(s, w, sealedCode));
    FinishInv(s, sealedCode.otype, if hashing.Hashed? then hashing.hash else garbage);
  }

  /** What it does is undefined exactly when it can read 2 GiB of a section at least that long. */
  lemma InitDataUndefinedIff(digest: seq<byte> -> Hash, s: Ledger, w: World, sealedCode: Capability, data: Capability,
      garbage: Hash)
    requires Inv(s) && Sane(w)
    ensures var code := CodeOf(s, w, sealedCode);
      AfterInitData(digest, s, w, sealedCode, data, garbage).2 == Undefined <==>
        (Pending(s, sealedCode.otype) && Swept(s, w, sealedCode, data) == Clear
         && code.length % 4 == 0 && code.length >= 0x8000_0000 && !CannotRead(code))
  {
    var hashing := HashResult(digest, w.mem, CodeOf(s, w, sealedCode));
    FinishInv(s, sealedCode.otype, if hashing.Hashed? then hashing.hash else garbage);
  }

  // ----- whole runs

  ghost predicate OpAttests(digest: seq<byte> -> Hash, s: Ledger, op: Op, id: u64)
    requires ValidOp(op)
  {
    op.InitData? && AssignIDFromOtype(op.sealedCode.otype) == id && Attests(digest, s, op.w, op.sealedCode, op.data)
  }

  /** Call i of a run from the start attests the identifier. */
  ghost predicate AttestedAt(digest: seq<byte> -> Hash, ops: seq<Op>, i: nat, id: u64)
    requires ValidOps(ops) && i < |ops|
  {
    OpAttests(digest, Run(digest, Initial(), ops[..i]), ops[i], id)
  }

  /** The hash that call i puts in the table. */
  function HashAt(digest: seq<byte> -> Hash, s: Ledger, op: Op): Hash
    requires op.InitData?
  {
    Attested(digest, op.w.mem, CodeOf(s, op.w, op.sealedCode), op.garbage)
  }

  lemma {:induction false} StepAttests(digest: seq<byte> -> Hash, s: Ledger, op: Op, id: u64)
    requires Inv(s) && ValidOp(op)
    ensures var s' := Step(digest, s, op).0;
      && Inv(s')
      && (IsReady(s', id) <==> IsReady(s, id) || OpAttests(digest, s, op, id))
      && (OpAttests(digest, s, op, id) ==> !IsReady(s, id) && s'.table[id - 1].hash == HashAt(digest, s, op))
      && (IsReady(s, id) ==> s'.table[id - 1].hash == s.table[id - 1].hash)
  {
    StepKeeps(digest, s, op);
    match op
    case InitCode(w, code) =>
      InitEntryInv(s);
    case InitData(w, sealedCode, data, garbage) =>
      InitDataAttests(digest, s, w, sealedCode, data, garbage);
    case StoreId(w, otype, memHash) =>
  }

  /** What call i of a run puts in the table for an object type. */
  ghost function Put(digest: seq<byte> -> Hash, ops: seq<Op>, i: nat, otype: u64): Option<Hash>
    requires ValidOps(ops) && i < |ops|
  {
    if AttestedAt(digest, ops, i, AssignIDFromOtype(otype))
    then Some(HashAt(digest, Run(digest, Initial(), ops[..i]), ops[i])) else None
  }

  ghost function KnownAfter(digest: seq<byte> -> Hash, ops: seq<Op>, n: nat, otype: u64): Option<Hash>
    requires ValidOps(ops) && n <= |ops|
  {
    HashOf(Run(digest, Initial(), ops[..n]), otype)
  }

  /** One call of a run: what is known stays known, and nothing is put where something is known. */
  lemma {:induction false} CallKeepsOrPuts(digest: seq<byte> -> Hash, ops: seq<Op>, i: nat, otype: u64)
    requires ValidOps(ops) && i < |ops|
    ensures KnownAfter(digest, ops, i + 1, otype)
         == if KnownAfter(digest, ops, i, otype).Some? then KnownAfter(digest, ops, i, otype) else Put(digest, ops, i, otype)
    ensures KnownAfter(digest, ops, i, otype).Some? ==> Put(digest, ops, i, otype) == None
  {
    var s, s' := Run(digest, Initial(), ops[..i]), Run(digest, Initial(), ops[..i + 1]);
    EveryRunIsSafe(digest, ops[..i]);
    assert ops[..i + 1][..i] == ops[..i];
    StepAttests(digest, s, ops[i], AssignIDFromOtype(otype));
    HashOfReady(s, otype);
    HashOfReady(s', otype);
  }

  /** Where each step keeps what is known or else takes what is put, something is known in the end exactly
      when something was put, once, and it is that. */
  lemma {:induction false} KnownIffPut(known: seq<Option<Hash>>, puts: seq<Option<Hash>>)
    requires |known| == |puts| + 1 && known[0] == None
    requires forall i :: 0 <= i < |puts| ==>
      known[i + 1] == (if known[i].Some? then known[i] else puts[i]) && (known[i].Some? ==> puts[i] == None)
    ensures known[|puts|].Some? <==> exists i :: 0 <= i < |puts| && puts[i].Some?
    ensures forall i :: 0 <= i < |puts| && puts[i].Some? ==> known[|puts|] == puts[i]
    ensures forall i, j :: 0 <= i < j < |puts| ==> !(puts[i].Some? && puts[j].Some?)
    decreases |puts|
  {
    if |puts| > 0 {
      var n := |puts| - 1;
      KnownIffPut(known[..|puts|], puts[..n]);
      assert forall i :: 0 <= i < n ==> puts[..n][i] == puts[i];
      if known[n].Some? {
        var i :| 0 <= i < n && puts[..n][i].Some?;
        assert puts[i].Some?;
      }
    }
  }

  lemma NothingKnownAtFirst(digest: seq<byte> -> Hash, ops: seq<Op>, otype: u64)
    requires ValidOps(ops)
    ensures KnownAfter(digest, ops, 0, otype) == None
  {
    InitialInv();
    HashOfReady(Initial(), otype);
  }

  lemma History(digest: seq<byte> -> Hash, ops: seq<Op>, otype: u64)
      returns (known: seq<Option<Hash>>, puts: seq<Option<Hash>>)
    requires ValidOps(ops)
    ensures |puts| == |ops| && |known| == |ops| + 1 && known[0] == None
    ensures known[|ops|] == KnownAfter(digest, ops, |ops|, otype)
    ensures forall i :: 0 <= i < |ops| ==> puts[i] == Put(digest, ops, i, otype)
    ensures forall i :: 0 <= i < |puts| ==>
      known[i + 1] == (if known[i].Some? then known[i] else puts[i]) && (known[i].Some? ==> puts[i] == None)
  {
    known := seq(|ops| + 1, i requires 0 <= i <= |ops| => KnownAfter(digest, ops, i, otype));
    puts := seq(|ops|, i requires 0 <= i < |ops| => Put(digest, ops, i, otype));
    NothingKnownAtFirst(digest, ops, otype);
    forall i | 0 <= i < |puts|
      ensures known[i + 1] == (if known[i].Some? then known[i] else puts[i]) && (known[i].Some? ==> puts[i] == None)
    {
      CallKeepsOrPuts(digest, ops, i, otype);
    }
  }

  /** What the table knows after any run: a hash for an object type exactly when some call attested its
      identifier. */
  lemma HashKnownIff(digest: seq<byte> -> Hash, ops: seq<Op>, otype: u64)
    requires ValidOps(ops)
    ensures HashOf(Run(digest, Initial(), ops), otype).Some?
        <==> exists i :: 0 <= i < |ops| && AttestedAt(digest, ops, i, AssignIDFromOtype(otype))
  {
    var known, puts := History(digest, ops, otype);
    KnownIffPut(known, puts);
    assert ops[..|ops|] == ops;
    if i :| 0 <= i < |ops| && AttestedAt(digest, ops, i, AssignIDFromOtype(otype)) {
      assert puts[i].Some?;
    }
  }

  /** It is the hash of that call. */
  lemma HashKnownIs(digest: seq<byte> -> Hash, ops: seq<Op>, otype: u64, i: nat)
    requires ValidOps(ops) && i < |ops| && AttestedAt(digest, ops, i, AssignIDFromOtype(otype))
    ensures HashOf(Run(digest, Initial(), ops), otype) == Some(HashAt(digest, Run(digest, Initial(), ops[..i]), ops[i]))
  {
    var known, puts := History(digest, ops, otype);
    KnownIffPut(known, puts);
    assert puts[i] == Put(digest, ops, i, otype) && ops[..|ops|] == ops;
  }

  /** No identifier is attested twice. */
  lemma AttestedOnce(digest: seq<byte> -> Hash, ops: seq<Op>, otype: u64, i: nat, j: nat)
    requires ValidOps(ops) && i < j < |ops| && AttestedAt(digest, ops, i, AssignIDFromOtype(otype))
    ensures !AttestedAt(digest, ops, j, AssignIDFromOtype(otype))
  {
    var known, puts := History(digest, ops, otype);
    KnownIffPut(known, puts);
    assert puts[i].Some? && puts[j] == Put(digest, ops, j, otype);
  }

  /** EStoreId answers true after a run exactly when some call of the run attested and the destination can
      take the hash: never before, but also after an EInitData that attested and then faulted. */
  lemma StoreIdAnswersIff(digest: seq<byte> -> Hash, ops: seq<Op>, w: World, otype: u64, memHash: Capability)
    requires ValidOps(ops) && memHash.InSpace()
    ensures AfterStoreId(Run(digest, Initial(), ops), w, otype, memHash).1 == Answer(true) <==>
      (memHash.MayAccess(StorePerm, memHash.address, HASH_BYTES)
       && exists i :: 0 <= i < |ops| && AttestedAt(digest, ops, i, AssignIDFromOtype(otype)))
  {
    HashKnownIff(digest, ops, otype);
    StoreIdSucceeds(Run(digest, Initial(), ops), w, otype, memHash);
  }

  // ----- sections that are not hashed

  /** A section shorter than a granule that is not a whole number of instructions is neither scanned nor
      read: not even the tag of the sealed code matters. */
  lemma ShortSectionReturns(digest: seq<byte> -> Hash, s: Ledger, w: World, sealedCode: Capability, data: Capability,
      garbage: Hash)
    requires Inv(s) && Sane(w) && sealedCode.length < CAP_LEN && sealedCode.length % 4 != 0
    ensures AfterInitData(digest, s, w, sealedCode, data, garbage).2.Returned? <==>
      (UnfinishedID(s, sealedCode.otype) != INVALID
       && Exclusive(CodeOf(s, w, sealedCode), data, w.regs, w.special, w.el1, w.mem.caps)
       && MayStoreCap(data))
  {
    InitDataReturnsIff(digest, s, w, sealedCode, data, garbage);
  }

  // ----- the section after the seals are written

  /** The addresses that the section and the granule of the seals share. */
  predicate Shared(base: u64, length: u64, a: u64, i: int) {
    base <= i < base + length && a <= i < a + CAP_LEN
  }

  predicate GranuleApart(base: u64, length: u64, a: u64) {
    length == 0 || base + length <= a || a + CAP_LEN <= base
  }

  /** Writing a capability keeps a section exactly when what is written to it was there before. */
  lemma SectionKeptIff(mem: Memory, base: u64, length: u64, a: u64, c: Capability, image: CapImage)
    ensures Section(PutCap(mem, a, c, image), base, length) == Section(mem, base, length)
        <==> forall i :: Shared(base, length, a, i) ==> ByteAt(mem, i) == image[i - a]
  {
    var kept, written := Section(mem, base, length), Section(PutCap(mem, a, c, image), base, length);
    forall i | base <= i < base + length
      ensures written[i - base] == (if Shared(base, length, a, i) then image[i - a] else ByteAt(mem, i))
      ensures kept[i - base] == ByteAt(mem, i)
    {
      PutCapReadBack(mem, a, c, image, i);
    }
    if forall i :: Shared(base, length, a, i) ==> ByteAt(mem, i) == image[i - a] {
      assert forall k :: 0 <= k < length ==> written[k] == kept[k] by {
        forall k | 0 <= k < length
          ensures written[k] == kept[k]
        {
          assert base <= base + k < base + length;
        }
      }
    }
  }

  /** It keeps the section whatever memory holds exactly when the two are apart. */
  lemma {:induction false} AnySectionKeptIff(base: u64, length: u64, a: u64, c: Capability, image: CapImage)
    ensures (forall mem: Memory :: Section(PutCap(mem, a, c, image), base, length) == Section(mem, base, length))
        <==> GranuleApart(base, length, a)
  {
    if GranuleApart(base, length, a) {
      forall mem: Memory
        ensures Section(PutCap(mem, a, c, image), base, length) == Section(mem, base, length)
      {
        SectionKeptIff(mem, base, length, a, c, image);
      }
    } else {
      var i := if base <= a then a else base;
      var mem := Memory(map[i := if image[i - a] == 0 then 1 else 0], map[]);
      SectionKeptIff(mem, base, length, a, c, image);
      assert Shared(base, length, a, i) && ByteAt(mem, i) != image[i - a];
    }
  }

  /** A successful EInitData leaves the section that it hashed as it was exactly when the bytes of the seals
      that fall into it were there before. */
  lemma SectionSurvivesIff(digest: seq<byte> -> Hash, s: Ledger, w: World, sealedCode: Capability, data: Capability,
      garbage: Hash)
    requires Inv(s) && Sane(w)
    requires AfterInitData(digest, s, w, sealedCode, data, garbage).2.Returned?
    ensures var (code, seals) := (CodeOf(s, w, sealedCode), SignEncSeal(w.arch, w.root, UnfinishedID(s, sealedCode.otype)));
      Section(AfterInitData(digest, s, w, sealedCode, data, garbage).1, code.base, code.length)
        == Section(w.mem, code.base, code.length)
      <==> forall i :: Shared(code.base, code.length, data.address, i) ==> ByteAt(w.mem, i) == w.image(seals)[i - data.address]
  {
    var code, seals := CodeOf(s, w, sealedCode), SignEncSeal(w.arch, w.root, UnfinishedID(s, sealedCode.otype));
    InitDataWrites(digest, s, w, sealedCode, data, garbage);
    SectionKeptIff(w.mem, code.base, code.length, data.address, seals, w.image(seals));
  }

  /** What a successful EInitData leaves in memory. */
  lemma InitDataWrites(digest: seq<byte> -> Hash, s: Ledger, w: World, sealedCode: Capability, data: Capability,
      garbage: Hash)
    requires Inv(s) && Sane(w)
    requires AfterInitData(digest, s, w, sealedCode, data, garbage).2.Returned?
    ensures var seals := SignEncSeal(w.arch, w.root, UnfinishedID(s, sealedCode.otype));
      AfterInitData(digest, s, w, sealedCode, data, garbage).1 == PutCap(w.mem, data.address, seals, w.image(seals))
  {
  }

  /** The same call with other bytes in memory. */
  function WithBytes(w: World, bytes: map<int, byte>): World {
    w.(mem := w.mem.(bytes := bytes))
  }

  /** What the bytes of memory are decides neither whether EInitData succeeds nor which section it hashes. */
  lemma BytesDoNotDecide(digest: seq<byte> -> Hash, s: Ledger, w: World, sealedCode: Capability, data: Capability,
      garbage: Hash, bytes: map<int, byte>)
    requires Inv(s) && Sane(w)
    requires AfterInitData(digest, s, w, sealedCode, data, garbage).2.Returned?
    ensures AfterInitData(digest, s, WithBytes(w, bytes), sealedCode, data, garbage).2.Returned?
    ensures CodeOf(s, WithBytes(w, bytes), sealedCode) == CodeOf(s, w, sealedCode)
  {
    var code := CodeOf(s, w, sealedCode);
    InitDataReturnsIff(digest, s, w, sealedCode, data, garbage);
    InitDataReturnsIff(digest, s, WithBytes(w, bytes), sealedCode, data, garbage);
    HashedIff(digest, w.mem, code);
    HashedIff(digest, WithBytes(w, bytes).mem, code);
  }

  /** So it leaves the section as it was, whatever bytes memory holds and however capabilities are encoded,
      exactly when the granule of the seals is apart from it. The sweep does not see to that: it does not
      compare the code with the data. */
  lemma {:induction false} SectionSurvives(digest: seq<byte> -> Hash, s: Ledger, w: World, sealedCode: Capability,
      data: Capability, garbage: Hash)
    requires Inv(s) && Sane(w)
    requires AfterInitData(digest, s, w, sealedCode, data, garbage).2.Returned?
    ensures var code := CodeOf(s, w, sealedCode);
      (forall bytes: map<int, byte> ::
        Section(AfterInitData(digest, s, WithBytes(w, bytes), sealedCode, data, garbage).1, code.base, code.length)
          == Section(WithBytes(w, bytes).mem, code.base, code.length))
      <==> GranuleApart(code.base, code.length, data.address)
  {
    var code, seals := CodeOf(s, w, sealedCode), SignEncSeal(w.arch, w.root, UnfinishedID(s, sealedCode.otype));
    var base, length, a := code.base, code.length, data.address;
    forall bytes: map<int, byte>
      ensures Section(AfterInitData(digest, s, WithBytes(w, bytes), sealedCode, data, garbage).1, base, length)
          == Section(WithBytes(w, bytes).mem, base, length)
        <==> forall i :: Shared(base, length, a, i) ==> ByteAt(WithBytes(w, bytes).mem, i) == w.image(seals)[i - a]
    {
      BytesDoNotDecide(digest, s, w, sealedCode, data, garbage, bytes);
      SectionSurvivesIff(digest, s, WithBytes(w, bytes), sealedCode, data, garbage);
    }
    if !GranuleApart(base, length, a) {
      var i := if base <= a then a else base;
      var bytes := map[i := if w.image(seals)[i - a] == 0 then 1 else 0];
      assert Shared(base, length, a, i) && ByteAt(WithBytes(w, bytes).mem, i) != w.image(seals)[i - a];
      assert Section(AfterInitData(digest, s, WithBytes(w, bytes), sealedCode, data, garbage).1, base, length)
          != Section(WithBytes(w, bytes).mem, base, length);
    }
  }

  // ----- calls at which attesting and succeeding differ

  const Nothing := Capability(false, 0, 0, 0, {}, 0)

  /** Registers and memory without a single capability. */
  function Quiet(): World {
    World(Arch((b, n, a) => true, (b, n) => true), Capability(true, 0, 0x1_0000, 0, {SealPerm, UnsealPerm}, 0),
          seq(NUM_REG, i => Nothing), seq(NUM_SPECIAL, i => Nothing),
          Capability(true, 0x1_0000, 16, 0x1_0000, {LoadCapPerm}, 0), Memory(map[], map[]),
          c => seq(CAP_LEN, i => 1))
  }

  function CodeCap(length: u64): Capability {
    Capability(true, 0x1000, length, 0x1000, {LoadPerm, LoadCapPerm}, 0)
  }

  const DataCap := Capability(true, 0x2000, 16, 0x2000, {StorePerm, StoreCapPerm}, 0)

  const HashCap := Capability(true, 0x3000, 32, 0x3000, {StorePerm}, 0)

  /** The first enclave, between its EInitCode and its EInitData. */
  ghost predicate Begun(s: Ledger, code: Capability, sealed: Capability) {
    (s, Returned(sealed)) == AfterInitCode(Initial(), Quiet(), code)
  }

  lemma QuietSweep(code: Capability, data: Capability)
    requires 16 <= code.length < 32 && code == CodeCap(code.length)
    ensures Sane(Quiet()) && SweepResult(code, data, Quiet().regs, Quiet().special, Quiet().el1, Quiet().mem.caps) == Clear
  {
    assert CodeScan(code, map[], 16) == Clear;
  }

  lemma BegunFacts(s: Ledger, code: Capability, sealed: Capability)
    requires code == CodeCap(code.length) && Begun(s, code, sealed)
    ensures Inv(s) && Sane(Quiet()) && AssignIDFromOtype(sealed.otype) == 1
    ensures UnfinishedID(s, sealed.otype) == 1 && CodeOf(s, Quiet(), sealed) == code
  {
    InitialInv();
    SealedCodeUnseals(Initial(), Quiet(), code, Quiet());
    Searches(s, 1);
  }

  /** With a data capability that cannot take the seals EInitData faults, and EStoreId hands out the hash of
      the enclave all the same. */
  lemma FaultIsAttested(digest: seq<byte> -> Hash, s: Ledger, sealed: Capability, garbage: Hash)
    requires Begun(s, CodeCap(16), sealed)
    ensures Sane(Quiet())
    ensures var (s', mem, r) := AfterInitData(digest, s, Quiet(), sealed, Nothing, garbage);
      && r == Fault && HashOf(s', sealed.otype) == Some(digest(Section(Quiet().mem, 0x1000, 16)))
      && AfterStoreId(s', Quiet(), sealed.otype, HashCap).1 == Answer(true)
  {
    BegunFacts(s, CodeCap(16), sealed);
    QuietSweep(CodeCap(16), Nothing);
    InitDataAttests(digest, s, Quiet(), sealed, Nothing, garbage);
    AttestsAndFaults(digest, s, Quiet(), sealed, Nothing, garbage);
    HashOfReady(AfterInitData(digest, s, Quiet(), sealed, Nothing, garbage).0, sealed.otype);
  }

  /** A section of 18 bytes is attested with whatever the hash structure held. */
  lemma OddSectionIsAttested(digest: seq<byte> -> Hash, s: Ledger, sealed: Capability, garbage: Hash)
    requires Begun(s, CodeCap(18), sealed)
    ensures Sane(Quiet())
    ensures var (s', mem, r) := AfterInitData(digest, s, Quiet(), sealed, DataCap, garbage);
      r.Returned? && HashOf(s', sealed.otype) == Some(garbage)
  {
    BegunFacts(s, CodeCap(18), sealed);
    QuietSweep(CodeCap(18), DataCap);
    InitDataReturnsIff(digest, s, Quiet(), sealed, DataCap, garbage);
    InitDataAttests(digest, s, Quiet(), sealed, DataCap, garbage);
    HashOfReady(AfterInitData(digest, s, Quiet(), sealed, DataCap, garbage).0, sealed.otype);
  }

  /** So is one of 3 bytes when the sealed code capability has lost its tag. */
  lemma UntaggedSectionIsAttested(digest: seq<byte> -> Hash, s: Ledger, sealed: Capability, garbage: Hash)
    requires Begun(s, CodeCap(3), sealed)
    ensures Sane(Quiet())
    ensures var (s', mem, r) := AfterInitData(digest, s, Quiet(), sealed.(tag := false), DataCap, garbage);
      r.Returned? && HashOf(s', sealed.otype) == Some(garbage)
  {
    var untagged := sealed.(tag := false);
    BegunFacts(s, CodeCap(3), sealed);
    ShortSectionReturns(digest, s, Quiet(), untagged, DataCap, garbage);
    InitDataAttests(digest, s, Quiet(), untagged, DataCap, garbage);
    HashOfReady(AfterInitData(digest, s, Quiet(), untagged, DataCap, garbage).0, sealed.otype);
  }

  /** A data capability to the code itself: EInitData succeeds, the seals are in the section whose hash was
      stored, and memory no longer holds what was hashed. */
  lemma SealsOverwriteSection(digest: seq<byte> -> Hash, s: Ledger, sealed: Capability, data: Capability, garbage: Hash)
    requires Begun(s, CodeCap(16), sealed) && data == Capability(true, 0x1000, 16, 0x1000, {StorePerm, StoreCapPerm}, 0)
    ensures Sane(Quiet())
    ensures var (s', mem, r) := AfterInitData(digest, s, Quiet(), sealed, data, garbage);
      && r.Returned? && HashOf(s', sealed.otype) == Some(digest(Section(Quiet().mem, 0x1000, 16)))
      && 0x1000 in mem.caps && mem.caps[0x1000] == SignEncSeal(Quiet().arch, Quiet().root, 1)
      && Section(mem, 0x1000, 16) != Section(Quiet().mem, 0x1000, 16)
  {
    BegunFacts(s, CodeCap(16), sealed);
    QuietSweep(CodeCap(16), data);
    InitDataReturnsIff(digest, s, Quiet(), sealed, data, garbage);
    InitDataAttests(digest, s, Quiet(), sealed, data, garbage);
    InitDataWrites(digest, s, Quiet(), sealed, data, garbage);
    SectionSurvivesIff(digest, s, Quiet(), sealed, data, garbage);
    assert Shared(0x1000, 16, 0x1000, 0x1000) && ByteAt(Quiet().mem, 0x1000) == 0;
    HashOfReady(AfterInitData(digest, s, Quiet(), sealed, data, garbage).0, sealed.otype);
  }
}

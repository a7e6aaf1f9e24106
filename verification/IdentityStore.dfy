/** The identity store: a fixed table of enclave entries and the counter that numbers them. */
module IdentityStore {
  import opened Words
  import opened Capabilities
  import opened EnclaveId

  const MAX_ENTRIES: nat := 32
  const HASH_BYTES: nat := 32
  const NUM_ENCLAVE_IDS: nat := (OTYPE_RANGE_END - OTYPE_RANGE_START) / 4

  type Hash = h: seq<byte> | |h| == HASH_BYTES witness seq(HASH_BYTES, _ => 0)

  function ZeroHash(): Hash {
    seq(HASH_BYTES, _ => 0)
  }

  datatype Option<T> = None | Some(value: T)

  datatype Entry = Entry(index: int, used: bool, ready: bool, id: u64, hash: Hash)

  /** The abstract state, and what each operation does to it. */
  datatype Ledger = Ledger(table: seq<Entry>, counter: int)

  /** What the searches look for. */
  datatype Wanted = Free | Unfinished(id: u64) | Ready(id: u64)

  predicate Matches(e: Entry, w: Wanted) {
    match w
    case Free => !e.used
    case Unfinished(id) => e.used && !e.ready && e.id == id
    case Ready(id) => e.used && e.ready && e.id == id
  }

  /** The place of the first match, or the length of the table. */
  function First(t: seq<Entry>, w: Wanted): (k: nat)
    ensures k <= |t| && (k < |t| ==> Matches(t[k], w))
    ensures forall i :: 0 <= i < k ==> !Matches(t[i], w)
  {
    if t == [] || Matches(t[0], w) then 0 else 1 + First(t[1..], w)
  }

  lemma FirstIs(t: seq<Entry>, w: Wanted, k: nat)
    requires k <= |t| && (k < |t| ==> Matches(t[k], w))
    requires forall i :: 0 <= i < k ==> !Matches(t[i], w)
    ensures First(t, w) == k
  {
  }

  // ----- the operations as functions of the state

  function Initial(): Ledger {
    Ledger(seq(MAX_ENTRIES, k requires 0 <= k < MAX_ENTRIES => Entry(k, false, false, INVALID, ZeroHash())), 1)
  }

  /** The next identifier, or minus one when the counter is past the range, as an unsigned value. */
  function NextID(counter: int): u64 {
    (if counter < NUM_ENCLAVE_IDS + 1 then counter else -1) % TWO64
  }

  function AfterInitEntry(s: Ledger): (Ledger, u64) {
    var k := First(s.table, Free);
    if k == |s.table| then (s, INVALID)
    else
      var id := NextID(s.counter);
      (Ledger(s.table[k := s.table[k].(used := true, id := id)],
             if s.counter < NUM_ENCLAVE_IDS + 1 then s.counter + 1 else s.counter), id)
  }

  function UnfinishedID(s: Ledger, otype: u64): u64 {
    var k := First(s.table, Unfinished(AssignIDFromOtype(otype)));
    if k == |s.table| then INVALID else s.table[k].id
  }

  function AfterFinish(s: Ledger, otype: u64, hash: Hash): (Ledger, bool) {
    var k := First(s.table, Unfinished(AssignIDFromOtype(otype)));
    if k == |s.table| then (s, false)
    else (s.(table := s.table[k := s.table[k].(hash := hash, ready := true)]), true)
  }

  function HashOf(s: Ledger, otype: u64): Option<Hash> {
    var k := First(s.table, Ready(AssignIDFromOtype(otype)));
    if k == |s.table| then None else Some(s.table[k].hash)
  }

  // ----- the invariant of every run

  /** Used entries form a prefix; entry k holds identifier k + 1; the counter is one past the last. */
  ghost predicate Inv(s: Ledger) {
    && |s.table| == MAX_ENTRIES
    && 1 <= s.counter <= MAX_ENTRIES + 1
    && (forall k :: 0 <= k < MAX_ENTRIES ==> s.table[k].index == k)
    && (forall k :: 0 <= k < s.counter - 1 ==> s.table[k].used && s.table[k].id == k + 1)
    && (forall k :: s.counter - 1 <= k < MAX_ENTRIES ==>
          !s.table[k].used && !s.table[k].ready && s.table[k].id == INVALID)
  }

  /** At most one entry matches an identifier, the one at its place. */
  lemma OnePlace(s: Ledger, id: u64, k: nat)
    requires Inv(s) && k < MAX_ENTRIES
    ensures Matches(s.table[k], Unfinished(id))
        <==> id == k + 1 && id < s.counter && !s.table[k].ready
    ensures Matches(s.table[k], Ready(id))
        <==> id == k + 1 && id < s.counter && s.table[k].ready
  {
  }

  predicate Issued(s: Ledger, id: u64) {
    1 <= id < s.counter
  }

  predicate IsReady(s: Ledger, id: u64) {
    1 <= id <= |s.table| && s.table[id - 1].ready
  }

  /** What the searches find. */
  lemma Searches(s: Ledger, id: u64)
    requires Inv(s)
    ensures First(s.table, Free) == s.counter - 1
    ensures First(s.table, Unfinished(id)) == if Issued(s, id) && !IsReady(s, id) then id - 1 else MAX_ENTRIES
    ensures First(s.table, Ready(id)) == if Issued(s, id) && IsReady(s, id) then id - 1 else MAX_ENTRIES
  {
    forall k: nat | k < MAX_ENTRIES
      ensures Matches(s.table[k], Unfinished(id)) <==> id == k + 1 && id < s.counter && !s.table[k].ready
      ensures Matches(s.table[k], Ready(id)) <==> id == k + 1 && id < s.counter && s.table[k].ready
    {
      OnePlace(s, id, k);
    }
    FirstIs(s.table, Free, s.counter - 1);
    FirstIs(s.table, Unfinished(id), if Issued(s, id) && !IsReady(s, id) then id - 1 else MAX_ENTRIES);
    FirstIs(s.table, Ready(id), if Issued(s, id) && IsReady(s, id) then id - 1 else MAX_ENTRIES);
  }

  lemma InitialInv()
    ensures Inv(Initial())
  {
  }

  /** The table at the start: 32 free places, without identifier and with a hash of zeros; the first identifier is 1. */
  lemma InitialIs(k: nat, i: nat)
    requires k < 32 && i < 32
    ensures |Initial().table| == 32 && Initial().counter == 1
    ensures var e := Initial().table[k];
      e.index == k && !e.used && !e.ready && e.id == 0xFFFF_FFFF_FFFF_FFFF && e.hash[i] == 0
  {
    assert Initial().table[k] == Entry(k, false, false, INVALID, ZeroHash()) && ZeroHash()[i] == 0;
  }

  /** A new entry gets the next identifier, never the invalid one, until all 32 are in use; within the
      table's size the counter can never run out. */
  lemma InitEntryInv(s: Ledger)
    requires Inv(s)
    ensures var (s', id) := AfterInitEntry(s);
      && Inv(s')
      && (id == INVALID <==> s.counter == MAX_ENTRIES + 1)
      && (id == INVALID ==> s' == s)
      && (id != INVALID ==> id == s.counter)
      && (id != INVALID ==>
            s' == Ledger(s.table[id - 1 := s.table[id - 1].(used := true, id := id)], s.counter + 1))
  {
    Searches(s, 0);
  }

  /** Finishing succeeds exactly where the search for an unfinished entry does, on that entry. */
  lemma FinishInv(s: Ledger, otype: u64, hash: Hash)
    requires Inv(s)
    ensures var id := UnfinishedID(s, otype);
      var (s', ok) := AfterFinish(s, otype, hash);
      && Inv(s')
      && (ok <==> id != INVALID)
      && (ok <==> Issued(s, AssignIDFromOtype(otype)) && !IsReady(s, AssignIDFromOtype(otype)))
      && (!ok ==> s' == s)
      && (ok ==> id == AssignIDFromOtype(otype))
      && (ok ==>
            s' == s.(table := s.table[id - 1 := s.table[id - 1].(hash := hash, ready := true)]))
  {
    Searches(s, AssignIDFromOtype(otype));
  }

  lemma HashOfReady(s: Ledger, otype: u64)
    requires Inv(s)
    ensures var id := AssignIDFromOtype(otype);
      HashOf(s, otype) == if Issued(s, id) && IsReady(s, id) then Some(s.table[id - 1].hash) else None
  {
    Searches(s, AssignIDFromOtype(otype));
  }

  /** The counter alone would issue one identifier too many: 256, whose object types leave the range. */
  lemma CounterAloneOverruns(counter: int)
    requires 1 <= counter
    ensures NextID(counter) != INVALID <==> counter <= 256
    ensures NextID(256) == 256 && GetOtype(256) == OTYPE_RANGE_END
  {
  }

  // ----- the code

  predicate ValidRange(otypeStart: int, otypeEnd: int) {
    otypeStart >= 0 && otypeEnd >= 0 && (otypeEnd - otypeStart) % 4 == 0
  }

  class IdentityStore {
    const table: array<Entry>
    var idCounter: int

    ghost predicate Valid()
      reads this
    {
      table.Length == MAX_ENTRIES
    }

    function State(): Ledger
      reads this, table
    {
      Ledger(table[..], idCounter)
    }

    constructor ()
      ensures Valid() && fresh(table) && State() == Initial()
    {
      table := new Entry[MAX_ENTRIES](_ => Entry(0, false, false, 0, ZeroHash()));
      idCounter := 0;
      new;
      InitTable();
      var _ := InitIDCounter(OTYPE_RANGE_START, OTYPE_RANGE_END);
    }

    method InitTable()
      requires Valid()
      modifies table
      ensures table[..] == Initial().table
    {
      var k := 0;
      while k < MAX_ENTRIES
        invariant 0 <= k <= MAX_ENTRIES
        invariant table[..k] == Initial().table[..k]
      {
        table[k] := Entry(k, false, false, INVALID, ZeroHash());
        k := k + 1;
      }
    }

    method InitIDCounter(otypeStart: int, otypeEnd: int) returns (r: int)
      modifies this`idCounter
      ensures r == if otypeStart >= 0 && otypeEnd >= 0 && (otypeEnd - otypeStart) % 4 == 0 then 0 else -1
      ensures idCounter == if r == 0 then 1 else NUM_ENCLAVE_IDS + 1
    {
      if ValidRange(otypeStart, otypeEnd) {
        idCounter := 1;
        r := 0;
      } else {
        idCounter := NUM_ENCLAVE_IDS + 1;
        r := -1;
      }
    }

    method GenerateEnclaveID() returns (r: int)
      modifies this`idCounter
      ensures if old(idCounter) < NUM_ENCLAVE_IDS + 1
        then r == old(idCounter) && idCounter == old(idCounter) + 1
        else r == -1 && idCounter == old(idCounter)
    {
      if idCounter < NUM_ENCLAVE_IDS + 1 {
        r := idCounter;
        idCounter := idCounter + 1;
      } else {
        r := -1;
      }
    }

    method InitEntry() returns (id: u64)
      requires Valid()
      modifies table, this`idCounter
      ensures (State(), id) == AfterInitEntry(old(State()))
    {
      var k := 0;
      while table[k].used
        invariant 0 <= k < MAX_ENTRIES && State() == old(State())
        invariant forall i :: 0 <= i < k ==> table[i].used
        decreases MAX_ENTRIES - k
      {
        k := k + 1;
        if k > MAX_ENTRIES - 1 {
          FirstIs(table[..], Free, k);
          return INVALID;
        }
      }
      FirstIs(table[..], Free, k);
      ghost var t := table[..];
      table[k] := table[k].(used := true);
      var next := GenerateEnclaveID();
      table[k] := table[k].(id := next % TWO64);
      assert table[..] == t[k := t[k].(used := true, id := table[k].id)];
      id := table[k].id;
    }

    /** The place of the unfinished entry for an object type, or the size of the table. */
    method FindUnfinished(otype: u64) returns (k: nat)
      requires Valid()
      ensures k == First(table[..], Unfinished(AssignIDFromOtype(otype)))
    {
      k := 0;
      while !(table[k].used && !table[k].ready && table[k].id == AssignIDFromOtype(otype))
        invariant 0 <= k < MAX_ENTRIES
        invariant forall i :: 0 <= i < k ==> !Matches(table[i], Unfinished(AssignIDFromOtype(otype)))
        decreases MAX_ENTRIES - k
      {
        k := k + 1;
        if k > MAX_ENTRIES - 1 {
          FirstIs(table[..], Unfinished(AssignIDFromOtype(otype)), k);
          return;
        }
      }
      FirstIs(table[..], Unfinished(AssignIDFromOtype(otype)), k);
    }

    method GetUnfinishedEntryID(otype: u64) returns (id: u64)
      requires Valid()
      ensures id == UnfinishedID(State(), otype)
    {
      var k := FindUnfinished(otype);
      if k > MAX_ENTRIES - 1 {
        return INVALID;
      }
      id := table[k].id;
    }

    method FinishEntry(otype: u64, hash: Hash) returns (ok: bool)
      requires Valid()
      modifies table
      ensures (State(), ok) == AfterFinish(old(State()), otype, hash)
    {
      var k := FindUnfinished(otype);
      if k > MAX_ENTRIES - 1 {
        return false;
      }
      ghost var t := table[..];
      table[k] := table[k].(hash := hash);
      table[k] := table[k].(ready := true);
      assert table[..] == t[k := t[k].(hash := hash, ready := true)];
      ok := true;
    }

    method GetHashEntry(otype: u64) returns (hash: Option<Hash>)
      requires Valid()
      ensures hash == HashOf(State(), otype)
    {
      var k := 0;
      while !(table[k].used && table[k].ready && table[k].id == AssignIDFromOtype(otype))
        invariant 0 <= k < MAX_ENTRIES
        invariant forall i :: 0 <= i < k ==> !Matches(table[i], Ready(AssignIDFromOtype(otype)))
        decreases MAX_ENTRIES - k
      {
        k := k + 1;
        if k > MAX_ENTRIES - 1 {
          FirstIs(table[..], Ready(AssignIDFromOtype(otype)), k);
          return None;
        }
      }
      FirstIs(table[..], Ready(AssignIDFromOtype(otype)), k);
      hash := Some(table[k].hash);
    }
  }
}

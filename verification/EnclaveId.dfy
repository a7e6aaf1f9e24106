/** Enclave identifiers, the four object types each of them owns, and the capabilities that seal with
    those object types. */
module EnclaveId {
  import opened Words
  import opened Capabilities

  const INVALID: u64 := 0xFFFF_FFFF_FFFF_FFFF
  const OTYPE_RANGE_START: nat := 0
  const OTYPE_RANGE_END: nat := 1024

  function AssignIDFromOtype(otype: u64): u64 {
    otype / 4
  }

  function GetOtype(id: u64): u64 {
    id * 4 % TWO64
  }

  function Plus64(x: u64, y: u64): u64 {
    (x + y) % TWO64
  }

  function CreateSealingCapability(arch: Arch, root: Capability, seal: u64, numSeals: u64): Capability {
    PermsAnd(BoundsSetExact(arch, AddressSet(arch, root, seal), numSeals), {SealPerm, UnsealPerm})
  }

  function SignSeal(arch: Arch, root: Capability, id: u64): Capability {
    CreateSealingCapability(arch, root, GetOtype(id), 1)
  }

  function EncSeal(arch: Arch, root: Capability, id: u64): Capability {
    CreateSealingCapability(arch, root, Plus64(GetOtype(id), 1), 1)
  }

  function IdentSeal(arch: Arch, root: Capability, id: u64): Capability {
    CreateSealingCapability(arch, root, Plus64(GetOtype(id), 2), 1)
  }

  function SignEncSeal(arch: Arch, root: Capability, id: u64): Capability {
    CreateSealingCapability(arch, root, GetOtype(id), 2)
  }

  /** The identifier comes back from each of its four object types, up to the width of the shift. */
  lemma OtypesLeadBack(id: u64, j: nat)
    requires j < 4
    ensures AssignIDFromOtype(Plus64(GetOtype(id), j)) == id <==> id < 0x4000_0000_0000_0000
  {
  }

  /** Each object type belongs to one identifier, and none to the invalid one. */
  lemma OtypeHasOneOwner(otype: u64)
    ensures AssignIDFromOtype(otype) != INVALID
    ensures forall id: u64 :: id < 0x4000_0000_0000_0000 ==>
      (AssignIDFromOtype(otype) == id <==> GetOtype(id) <= otype < GetOtype(id) + 4)
  {
    forall id: u64 | id < 0x4000_0000_0000_0000
      ensures AssignIDFromOtype(otype) == id <==> GetOtype(id) <= otype < GetOtype(id) + 4
    {
      assert GetOtype(id) == 4 * id;
    }
  }

  /** A root that reaches all object types in use. */
  predicate IsRoot(root: Capability) {
    && root.Usable(SealPerm) && UnsealPerm in root.perms
    && root.base == 0 && root.length > MAX_OTYPE + 2
  }

  /** The object types that a sealing capability can put on or take off. */
  ghost predicate Grants(s: Capability, otype: u64) {
    s.Usable(SealPerm) && UnsealPerm in s.perms && s.Covers(otype, 1)
  }

  lemma SealingCapability(arch: Arch, root: Capability, seal: u64, n: u64)
    requires IsMorello(arch) && IsRoot(root) && seal <= MAX_OTYPE && 1 <= n <= 2
    ensures var s := CreateSealingCapability(arch, root, seal, n);
      s.tag && s.address == seal && (forall o: u64 :: Grants(s, o) <==> seal <= o < seal + n)
      && (seal > 0 ==> Authorises(s, SealPerm) && Authorises(s, UnsealPerm))
  {
    assert arch.representable(root.base, root.length, seal);
    assert arch.exact(seal, n);
  }

  /** A derived capability has no right that the root has not: it is untagged unless the root is tagged and unsealed, and
      its range and permissions are part of the root's. It never grants anything but sealing and unsealing. */
  lemma DerivedIsWithin(arch: Arch, root: Capability, seal: u64, n: u64)
    ensures var s := CreateSealingCapability(arch, root, seal, n);
      && s.perms <= root.perms && s.perms <= {SealPerm, UnsealPerm} && s.base == s.address == seal && s.length == n
      && (s.tag ==> root.tag && root.otype == OTYPE_UNSEALED && root.base <= s.base && s.base + n <= root.base + root.length)
      && (SealPerm in root.perms ==> SealPerm in s.perms) && (UnsealPerm in root.perms ==> UnsealPerm in s.perms)
  {
  }

  lemma SealGrants(arch: Arch, root: Capability, seal: u64, n: u64, otype: u64)
    requires IsMorello(arch) && IsRoot(root) && seal <= MAX_OTYPE && 1 <= n <= 2
    ensures Grants(CreateSealingCapability(arch, root, seal, n), otype) <==> seal <= otype < seal + n
  {
    SealingCapability(arch, root, seal, n);
  }

  /** The seals of an identifier partition its object types: the first two for sign and enc, which the
      double seal grants and nothing else, the third for the identity. */
  lemma SealsPartition(arch: Arch, root: Capability, id: u64, otype: u64)
    requires IsMorello(arch) && IsRoot(root) && 4 * id + 3 <= MAX_OTYPE
    ensures Grants(SignSeal(arch, root, id), otype) <==> otype == 4 * id
    ensures Grants(EncSeal(arch, root, id), otype) <==> otype == 4 * id + 1
    ensures Grants(IdentSeal(arch, root, id), otype) <==> otype == 4 * id + 2
    ensures Grants(SignEncSeal(arch, root, id), otype)
        <==> Grants(SignSeal(arch, root, id), otype) || Grants(EncSeal(arch, root, id), otype)
  {
    TypesOf(id);
    SealGrants(arch, root, GetOtype(id), 1, otype);
    SealGrants(arch, root, Plus64(GetOtype(id), 1), 1, otype);
    SealGrants(arch, root, Plus64(GetOtype(id), 2), 1, otype);
    SealGrants(arch, root, GetOtype(id), 2, otype);
  }

  lemma TypesOf(id: u64)
    requires 4 * id + 3 <= MAX_OTYPE
    ensures GetOtype(id) == 4 * id && Plus64(GetOtype(id), 1) == 4 * id + 1 && Plus64(GetOtype(id), 2) == 4 * id + 2
  {
  }

  ghost predicate GrantsAny(arch: Arch, root: Capability, id: u64, otype: u64) {
    Grants(SignEncSeal(arch, root, id), otype) || Grants(IdentSeal(arch, root, id), otype)
  }

  /** No seal of one identifier grants an object type that a seal of another does, and the double seal
      never grants what any identity seal does. */
  lemma SealsDisjoint(arch: Arch, root: Capability, id: u64, id': u64, otype: u64)
    requires IsMorello(arch) && IsRoot(root) && 4 * id + 3 <= MAX_OTYPE && 4 * id' + 3 <= MAX_OTYPE
    ensures id != id' ==> !(GrantsAny(arch, root, id, otype) && GrantsAny(arch, root, id', otype))
    ensures !(Grants(SignEncSeal(arch, root, id), otype) && Grants(IdentSeal(arch, root, id'), otype))
  {
    SealsPartition(arch, root, id, otype);
    SealsPartition(arch, root, id', otype);
  }

  /** All object types an identifier can own stay in the range the monitor may use, above the reserved
      ones, exactly for the identifiers 1 to 255. */
  lemma OtypesInRange(id: u64)
    requires id < 0x4000_0000_0000_0000
    ensures (forall j: nat :: j < 4 ==> 3 < Plus64(GetOtype(id), j) < OTYPE_RANGE_END) <==> 1 <= id <= 255
  {
    assert forall j: nat :: j < 4 ==> Plus64(GetOtype(id), j) == 4 * id + j;
    if id == 0 || id > 255 {
      assert !(3 < Plus64(GetOtype(id), 0) < OTYPE_RANGE_END);
    }
  }
}

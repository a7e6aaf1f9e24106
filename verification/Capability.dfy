/** The capabilities of the enclave monitor, as values, and the operations it performs on them. An
    operation that the hardware refuses clears the tag. */
module Capabilities {
  import opened Words

  const OTYPE_UNSEALED: u64 := 0
  const MAX_OTYPE: u64 := 0x7FFF
  const CAP_LEN: nat := 16

  datatype Perm = LoadPerm | StorePerm | LoadCapPerm | StoreCapPerm | ExecutePerm | SealPerm | UnsealPerm | GlobalPerm

  datatype Capability = Capability(
    tag: bool, base: u64, length: u64, address: u64, perms: set<Perm>, otype: u64)
  {
    predicate Sealed() {
      otype != OTYPE_UNSEALED
    }

    predicate Usable(p: Perm) {
      tag && !Sealed() && p in perms
    }

    predicate Covers(a: int, n: nat) {
      base <= a && a + n <= base + length
    }

    predicate MayAccess(p: Perm, a: int, n: nat) {
      Usable(p) && Covers(a, n)
    }

    predicate MayAccessCap(p: Perm, a: int) {
      MayAccess(p, a, CAP_LEN) && a % CAP_LEN == 0
    }

    /** No range goes past the end of the address space. */
    predicate InSpace() {
      base + length <= TWO64
    }

    /** The end of the range as the code computes it, in 64 bits. */
    function Limit(): u64 {
      (base + length) % TWO64
    }

    function Offset(): u64 {
      (address - base) % TWO64
    }
  }

  /** The addresses of a capability. */
  ghost predicate Reaches(c: Capability, a: int) {
    c.base <= a < c.base + c.length
  }

  /** What compressed bounds can represent: left to the processor. */
  datatype Arch = Arch(representable: (u64, u64, u64) -> bool, exact: (u64, u64) -> bool)

  /** An address within bounds is representable, and so are bounds of one or two bytes. */
  ghost predicate IsMorello(arch: Arch) {
    && (forall b: u64, n: u64, a: u64 :: b <= a < b + n ==> arch.representable(b, n, a))
    && (forall b: u64, n: u64 :: n <= 2 ==> arch.exact(b, n))
  }

  function AddressSet(arch: Arch, c: Capability, a: u64): Capability {
    c.(address := a, tag := c.tag && !c.Sealed() && arch.representable(c.base, c.length, a))
  }

  function BoundsSetExact(arch: Arch, c: Capability, n: u64): Capability {
    c.(base := c.address, length := n,
       tag := c.tag && !c.Sealed() && c.Covers(c.address, n) && arch.exact(c.address, n))
  }

  function PermsAnd(c: Capability, perms: set<Perm>): Capability {
    c.(perms := c.perms * perms, tag := c.tag && !c.Sealed())
  }

  predicate Authorises(s: Capability, p: Perm) {
    s.MayAccess(p, s.address, 1) && OTYPE_UNSEALED < s.address <= MAX_OTYPE
  }

  function Seal(c: Capability, s: Capability): Capability {
    c.(otype := s.address, tag := c.tag && !c.Sealed() && Authorises(s, SealPerm))
  }

  function Unseal(c: Capability, s: Capability): Capability {
    c.(otype := OTYPE_UNSEALED,
       tag := c.tag && c.Sealed() && Authorises(s, UnsealPerm) && s.address == c.otype)
  }

  /** Unsealing undoes sealing exactly when the seal authorises both and the capability could be sealed. */
  lemma SealUnseal(c: Capability, s: Capability, s': Capability)
    requires !c.Sealed() && c.tag
    ensures Unseal(Seal(c, s), s') == c
        <==> Authorises(s, SealPerm) && Authorises(s', UnsealPerm) && s.address == s'.address
  {
  }

  /** A step by which the monitor makes a capability from another, with the capability that seals or unseals it. */
  datatype Derivation =
    | MoveTo(address: u64)
    | Narrow(length: u64)
    | Restrict(perms: set<Perm>)
    | SealWith(key: Capability)
    | UnsealWith(key: Capability)

  function Derive(arch: Arch, c: Capability, steps: seq<Derivation>): Capability {
    if steps == [] then c
    else
      var d := Derive(arch, c, steps[..|steps| - 1]);
      match steps[|steps| - 1]
      case MoveTo(a) => AddressSet(arch, d, a)
      case Narrow(n) => BoundsSetExact(arch, d, n)
      case Restrict(perms) => PermsAnd(d, perms)
      case SealWith(key) => Seal(d, key)
      case UnsealWith(key) => Unseal(d, key)
  }

  /** One byte of a valid key's range is the object type, and the key may be used for it. */
  ghost predicate KeyFor(key: Capability, p: Perm, otype: u64) {
    && key.tag && key.otype == OTYPE_UNSEALED && p in key.perms
    && key.address == otype && key.base <= otype < key.base + key.length && 0 < otype <= MAX_OTYPE
  }

  ghost predicate Unsealed(steps: seq<Derivation>, otype: u64) {
    exists i :: 0 <= i < |steps| && steps[i].UnsealWith? && KeyFor(steps[i].key, UnsealPerm, otype)
  }

  ghost predicate SealedBy(steps: seq<Derivation>, otype: u64) {
    exists i :: 0 <= i < |steps| && steps[i].SealWith? && KeyFor(steps[i].key, SealPerm, otype)
  }

  /** No sequence of steps gains anything: a valid result comes from a valid capability, reaches no address
      and has no permission that this one has not. A seal is lost or put on only by a key for it. */
  lemma {:induction false} NeverGains(arch: Arch, c: Capability, steps: seq<Derivation>)
    ensures Derive(arch, c, steps).perms <= c.perms
    ensures var d := Derive(arch, c, steps);
      d.tag ==>
        && c.tag && c.base <= d.base && d.base + d.length <= c.base + c.length
        && (c.otype != OTYPE_UNSEALED && d.otype != c.otype ==> Unsealed(steps, c.otype))
        && (d.otype != OTYPE_UNSEALED && d.otype != c.otype ==> SealedBy(steps, d.otype))
  {
    if steps != [] {
      var n := |steps| - 1;
      var before := steps[..n];
      var b, d := Derive(arch, c, before), Derive(arch, c, steps);
      NeverGains(arch, c, before);
      assert steps[n].UnsealWith? && d.tag ==> KeyFor(steps[n].key, UnsealPerm, b.otype);
      assert steps[n].SealWith? && d.tag ==> KeyFor(steps[n].key, SealPerm, d.otype);
      assert Unsealed(before, c.otype) ==> Unsealed(steps, c.otype) by { Extends(before, steps); }
      assert SealedBy(before, d.otype) ==> SealedBy(steps, d.otype) by { Extends(before, steps); }
    }
  }

  lemma Extends(before: seq<Derivation>, steps: seq<Derivation>)
    requires |before| <= |steps| && before == steps[..|before|]
    ensures forall t: u64 :: Unsealed(before, t) ==> Unsealed(steps, t)
    ensures forall t: u64 :: SealedBy(before, t) ==> SealedBy(steps, t)
  {
    assert forall i :: 0 <= i < |before| ==> before[i] == steps[i];
  }
}

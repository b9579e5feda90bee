/** Promotion of a signed wire lineage on a node (crates/ward-node/src/admit.rs). */
module Admission {
  import opened Wrappers
  import opened Leases
  import opened Lineages
  import opened Revocations
  import opened AuthorityRuns

  function Reversed<T>(s: seq<T>): seq<T> {
    seq(|s|, i requires 0 <= i < |s| => s[|s| - 1 - i])
  }

  function ClaimedBinding(wire: Wire): Binding {
    Binding(wire.id, wire.delegation, wire.subject, wire.task, wire.version)
  }

  /** The fields of a wire value read as a lease, with no judgement about them. */
  function Reading(wire: Wire): Lease {
    Lease(wire.id, wire.delegation, wire.issuer, wire.subject, wire.task,
          wire.parent, wire.delegatedBy, wire.grants, wire.issued, wire.expires, wire.version)
  }

  function Readings(wires: seq<Wire>): seq<Lease> {
    seq(|wires|, i requires 0 <= i < |wires| => Reading(wires[i]))
  }

  /** A chain, root first, that deserves admission: a root, each next lease a contraction of the
      one before, all of them active now and none of them empty. */
  predicate Admissible(chain: seq<Lease>, now: nat) {
    && chain != []
    && RootShaped(chain[0])
    && (forall i | 0 < i < |chain| :: Contracts(chain[i - 1], chain[i]))
    && (forall i | 0 <= i < |chain| :: ActiveAt(chain[i], now) && chain[i].grants != [])
  }

  lemma RootReading(wire: Wire, now: nat)
    ensures IntoVerifiedRoot(wire, now, RejectEmpty).Ok? <==> Admissible([Reading(wire)], now)
    ensures IntoVerifiedRoot(wire, now, RejectEmpty).Ok? ==>
              IntoVerifiedRoot(wire, now, RejectEmpty).value == Reading(wire)
  {
    PromotionIsExact(wire, now, RejectEmpty);
    assert ToWire(Reading(wire)) == wire;
  }

  lemma ChildReading(parent: Lease, wire: Wire, now: nat)
    requires ActiveAt(parent, now)
    ensures ValidateDelegated(parent, wire, ClaimedBinding(wire), now, RejectEmpty).Ok? <==>
              Contracts(parent, Reading(wire)) && ActiveAt(Reading(wire), now) && wire.grants != []
    ensures ValidateDelegated(parent, wire, ClaimedBinding(wire), now, RejectEmpty).Ok? ==>
              ValidateDelegated(parent, wire, ClaimedBinding(wire), now, RejectEmpty).value == Reading(wire)
  {
    ValidationIsExact(parent, wire, ClaimedBinding(wire), now, RejectEmpty);
    assert ToWire(Reading(wire)) == wire;
  }

  /** Rebuild trusted leases from the wire, root first; `lineage` is nearest parent first. What is
      returned is the wire as it stands, and it is returned exactly when it is admissible. */
  method PromoteAuthority(lineage: seq<Wire>, lease: Wire, now: nat)
    returns (r: Result<(Lease, seq<Lease>), LeaseError>)
    ensures r.Ok? <==> Admissible(Readings(Reversed(lineage) + [lease]), now)
    ensures r.Ok? ==> r.value == (Reading(lease), Readings(lineage))
  {
    var chain := Reversed(lineage) + [lease];
    ghost var want := Readings(chain);
    RootReading(chain[0], now);
    var root := IntoVerifiedRoot(chain[0], now, RejectEmpty);
    if root.Err? {
      return Err(root.error);
    }
    var current := root.value;
    var ancestors: seq<Lease> := [];
    for i := 1 to |chain|
      invariant current == want[i - 1] && ancestors == want[..i - 1]
      invariant Admissible(want[..i], now)
    {
      ChildReading(current, chain[i], now);
      var child := ValidateDelegated(current, chain[i], ClaimedBinding(chain[i]), now, RejectEmpty);
      if child.Err? {
        assert want[i] == Reading(chain[i]);
        assert !(Contracts(want[i - 1], want[i]) && ActiveAt(want[i], now) && want[i].grants != []);
        return Err(child.error);
      }
      Extend(want[..i], child.value, now);
      assert want[..i + 1] == want[..i] + [child.value];
      ancestors := ancestors + [current];
      current := child.value;
    }
    assert want[..|chain|] == want;
    ancestors := Reversed(ancestors);
    assert forall i | 0 <= i < |lineage| :: ancestors[i] == Readings(lineage)[i];
    assert ancestors == Readings(lineage);
    return Ok((current, ancestors));
  }

  lemma Extend(chain: seq<Lease>, next: Lease, now: nat)
    requires Admissible(chain, now) && Contracts(chain[|chain| - 1], next) && ActiveAt(next, now) && next.grants != []
    ensures Admissible(chain + [next], now)
  {
  }

  lemma {:induction false} AdmissibleConfines(chain: seq<Lease>, now: nat, i: nat, j: nat)
    requires Admissible(chain, now) && i < j < |chain|
    ensures Confines(chain[i], chain[j])
    decreases j
  {
    assert Contracts(chain[j - 1], chain[j]);
    if i + 1 < j {
      AdmissibleConfines(chain, now, i, j - 1);
      ConfinementComposes(chain[i], chain[j - 1], chain[j]);
    }
  }

  /** After promotion the lineage check adds exactly one thing: no identity occurs twice. */
  lemma PromotedLineage(lineage: seq<Wire>, lease: Wire, now: nat)
    requires Admissible(Readings(Reversed(lineage) + [lease]), now)
    ensures ForLeaseSpec(Reading(lease), Readings(lineage)).Ok? <==>
              DistinctIds([Reading(lease)] + Readings(lineage))
  {
    var rootFirst := Readings(Reversed(lineage) + [lease]);
    var chain := [Reading(lease)] + Readings(lineage);
    var n := |chain|;
    assert forall i | 0 <= i < n :: chain[i] == rootFirst[n - 1 - i];
    forall i | 0 < i < n ensures chain[i - 1].parent == Some(chain[i].id) {
      assert Contracts(rootFirst[n - i - 1], rootFirst[n - i]);
    }
    AcceptedExactly(Reading(lease), Readings(lineage));
  }

  /** What admission establishes at `now`, whoever chose the identities: when promotion, the
      lineage check and the usability check all pass, every ancestor is usable too and confines
      the admitted lease. */
  lemma AdmittedUnderUsableAncestors(lineage: seq<Wire>, lease: Wire, ledger: Ledger, now: nat)
    requires Admissible(Readings(Reversed(lineage) + [lease]), now)
    requires ForLeaseSpec(Reading(lease), Readings(lineage)).Ok?
    requires UsableWithLineage(ledger, Reading(lease), Lineage(lease.id, Ids(Readings(lineage))), now)
    ensures forall i | 0 <= i < |lineage| ::
              && OwnLineageUsable(ledger, Readings(lineage), i, now)
              && Confines(Readings(lineage)[i], Reading(lease))
  {
    var rootFirst := Readings(Reversed(lineage) + [lease]);
    AcceptedExactly(Reading(lease), Readings(lineage));
    forall i | 0 <= i < |lineage|
      ensures OwnLineageUsable(ledger, Readings(lineage), i, now) && Confines(Readings(lineage)[i], Reading(lease))
    {
      assert rootFirst[|lineage| - 1 - i] == Readings(lineage)[i] && rootFirst[|lineage|] == Reading(lease);
      AdmissibleConfines(rootFirst, now, |lineage| - 1 - i, |lineage|);
      AncestorIsUsable(ledger, Reading(lease), Readings(lineage), now, i);
    }
  }
}

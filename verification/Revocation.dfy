/** Monotone revocation and the usability check (crates/ward-authority/src/revocation.rs). */
module Revocations {
  import opened Wrappers
  import opened Leases
  import opened Lineages

  datatype Reason = Operator | Policy | DelegationRevoked | Security

  datatype Fact = Fact(lease: LeaseId, revokedAt: nat, reason: Reason)

  datatype RevocationState = Known(fact: Fact) | Conflict

  datatype RevocationError = RevocationConflict

  type Ledger = map<LeaseId, RevocationState>

  /** The ledger after one more trusted fact. */
  function Recorded(ledger: Ledger, fact: Fact): Ledger {
    if fact.lease !in ledger then ledger[fact.lease := Known(fact)]
    else if ledger[fact.lease] == Known(fact) then ledger
    else ledger[fact.lease := Conflict]
  }

  function RecordedAll(ledger: Ledger, facts: seq<Fact>): Ledger {
    if facts == [] then ledger
    else Recorded(RecordedAll(ledger, facts[..|facts| - 1]), facts[|facts| - 1])
  }

  predicate Conflicted(ledger: Ledger, id: LeaseId) {
    id in ledger && ledger[id] == Conflict
  }

  predicate Unrevoked(ledger: Ledger, id: LeaseId, now: nat) {
    id in ledger ==> ledger[id].Known? && now < ledger[id].fact.revokedAt
  }

  predicate Usable(ledger: Ledger, lease: Lease, now: nat) {
    ActiveAt(lease, now) && Unrevoked(ledger, lease.id, now)
  }

  predicate UsableWithLineage(ledger: Ledger, lease: Lease, lineage: Lineage, now: nat) {
    && lineage.lease == lease.id
    && Usable(ledger, lease, now)
    && forall i | 0 <= i < |lineage.ancestors| :: Unrevoked(ledger, lineage.ancestors[i], now)
  }

  /** The in-memory set; there is no operation that removes a fact. */
  class AuthorityRevocations {
    var byLease: Ledger

    constructor ()
      ensures byLease == map[]
    {
      byLease := map[];
    }

    method Record(fact: Fact) returns (r: Result<(), RevocationError>)
      modifies this
      ensures byLease == Recorded(old(byLease), fact)
      ensures fact.lease in byLease
      ensures r.Err? <==> byLease[fact.lease] == Conflict
      ensures forall t :: Unrevoked(byLease, fact.lease, t) ==> old(Unrevoked(byLease, fact.lease, t))
      ensures forall id | id != fact.lease :: id in byLease <==> id in old(byLease)
      ensures forall id | id != fact.lease && id in byLease :: byLease[id] == old(byLease)[id]
    {
      if fact.lease !in byLease {
        byLease := byLease[fact.lease := Known(fact)];
        return Ok(());
      }
      match byLease[fact.lease]
      case Known(existing) =>
        if existing == fact {
          return Ok(());
        }
        byLease := byLease[fact.lease := Conflict];
        return Err(RevocationConflict);
      case Conflict =>
        byLease := byLease[fact.lease := Conflict];
        return Err(RevocationConflict);
    }
  }

  // -------------------------------------------------------------------------------------------
  // The ledger is a function of the set of facts

  function FactSet(facts: seq<Fact>): set<Fact> {
    set f | f in facts
  }

  /** The distinct facts recorded about one lease. */
  function FactsAbout(facts: seq<Fact>, id: LeaseId): set<Fact> {
    set f | f in FactSet(facts) && f.lease == id
  }

  /** None recorded: absent. One distinct fact: known. Two or more: conflicted. */
  ghost predicate Reflects(ledger: Ledger, about: set<Fact>, id: LeaseId) {
    && (id !in ledger <==> about == {})
    && (forall f :: id in ledger && ledger[id] == Known(f) <==> about == {f})
    && (Conflicted(ledger, id) <==> |about| >= 2)
  }

  lemma {:induction false} LedgerReflectsFacts(facts: seq<Fact>, id: LeaseId)
    ensures Reflects(RecordedAll(map[], facts), FactsAbout(facts, id), id)
  {
    if facts != [] {
      var n := |facts| - 1;
      var last := facts[n];
      LedgerReflectsFacts(facts[..n], id);
      var before := FactsAbout(facts[..n], id);
      assert facts == facts[..n] + [last];
      assert FactSet(facts) == FactSet(facts[..n]) + {last};
      assert FactsAbout(facts, id) == if last.lease == id then before + {last} else before;
      RecordReflects(RecordedAll(map[], facts[..n]), before, last, id);
    }
  }

  lemma RecordReflects(ledger: Ledger, about: set<Fact>, fact: Fact, id: LeaseId)
    requires Reflects(ledger, about, id) && forall f | f in about :: f.lease == id
    ensures Reflects(Recorded(ledger, fact), if fact.lease == id then about + {fact} else about, id)
  {
    if fact.lease == id {
      AddingAFact(about, fact);
      if about != {} && about <= {fact} {
        assert about == {fact};
      }
    }
  }

  lemma AddingAFact(before: set<Fact>, fact: Fact)
    ensures |before + {fact}| >= 2 <==> !(before <= {fact})
    ensures forall f :: before + {fact} == {f} <==> f == fact && before <= {fact}
    ensures before == {} ==> |before| == 0
    ensures |before| == 0 ==> before == {}
  {
    if before <= {fact} {
      assert before + {fact} == {fact};
    } else {
      var other :| other in before && other != fact;
      assert {other, fact} <= before + {fact};
      SubsetIsNoLarger({other, fact}, before + {fact});
    }
  }

  lemma {:induction false} SubsetIsNoLarger<T>(a: set<T>, b: set<T>)
    requires a <= b
    ensures |a| <= |b|
  {
    if a != {} {
      var x :| x in a;
      SubsetIsNoLarger(a - {x}, b - {x});
    }
  }

  /** Order and repetition of the records are invisible: equal sets of facts, equal ledgers. */
  lemma LedgerIgnoresOrderAndRepetition(a: seq<Fact>, b: seq<Fact>)
    requires FactSet(a) == FactSet(b)
    ensures RecordedAll(map[], a) == RecordedAll(map[], b)
  {
    var x, y := RecordedAll(map[], a), RecordedAll(map[], b);
    forall id ensures id in x <==> id in y
              ensures id in x ==> x[id] == y[id]
    {
      LedgerReflectsFacts(a, id);
      LedgerReflectsFacts(b, id);
      assert FactsAbout(a, id) == FactsAbout(b, id);
      if id in x && x[id].Known? {
        var f := x[id].fact;
        assert id in y && y[id] == Known(f);
      }
    }
    assert x.Keys == y.Keys;
  }

  /** Recording never makes an identity usable again. */
  lemma {:induction false} RecordingOnlyWithdraws(ledger: Ledger, facts: seq<Fact>, id: LeaseId, now: nat)
    requires Unrevoked(RecordedAll(ledger, facts), id, now)
    ensures Unrevoked(ledger, id, now)
  {
    if facts != [] {
      RecordingOnlyWithdraws(ledger, facts[..|facts| - 1], id, now);
    }
  }

  // -------------------------------------------------------------------------------------------
  // When a lease is usable

  /** The identities whose revocation matters for a lease. */
  function ChainIds(lineage: Lineage): seq<LeaseId> {
    [lineage.lease] + lineage.ancestors
  }

  predicate AnyConflict(ledger: Ledger, ids: seq<LeaseId>) {
    exists i | 0 <= i < |ids| :: Conflicted(ledger, ids[i])
  }

  /** The effective instants of the revocations known for `ids`. */
  function Instants(ledger: Ledger, ids: seq<LeaseId>): set<nat> {
    set i | 0 <= i < |ids| && ids[i] in ledger && ledger[ids[i]].Known? :: ledger[ids[i]].fact.revokedAt
  }

  predicate IsLeast(x: nat, s: set<nat>) {
    x in s && forall y | y in s :: x <= y
  }

  /** A lease is usable exactly in [issued, end), where `end` is the least of its expiry and the
      revocation instants on its chain; with a conflict anywhere on the chain, never. */
  lemma UsableInterval(ledger: Ledger, lease: Lease, lineage: Lineage) returns (end: nat)
    requires lineage.lease == lease.id
    ensures IsLeast(end, {lease.expires} + Instants(ledger, ChainIds(lineage)))
    ensures forall now: nat :: UsableWithLineage(ledger, lease, lineage, now) <==>
                            !AnyConflict(ledger, ChainIds(lineage)) && lease.issued <= now < end
  {
    end := LeastExists({lease.expires} + Instants(ledger, ChainIds(lineage)));
    forall now: nat
      ensures UsableWithLineage(ledger, lease, lineage, now) <==>
                !AnyConflict(ledger, ChainIds(lineage)) && lease.issued <= now < end
    {
      UsableBefore(ledger, lease, lineage, end, now);
    }
  }

  lemma UsableBefore(ledger: Ledger, lease: Lease, lineage: Lineage, end: nat, now: nat)
    requires lineage.lease == lease.id
    requires IsLeast(end, {lease.expires} + Instants(ledger, ChainIds(lineage)))
    ensures UsableWithLineage(ledger, lease, lineage, now) <==>
              !AnyConflict(ledger, ChainIds(lineage)) && lease.issued <= now < end
  {
    UsableMeansChainUnrevoked(ledger, lease, lineage, now);
    ChainUnrevokedMeans(ledger, ChainIds(lineage), now);
  }

  predicate ChainUnrevoked(ledger: Ledger, ids: seq<LeaseId>, now: nat) {
    forall i | 0 <= i < |ids| :: Unrevoked(ledger, ids[i], now)
  }

  lemma UsableMeansChainUnrevoked(ledger: Ledger, lease: Lease, lineage: Lineage, now: nat)
    requires lineage.lease == lease.id
    ensures UsableWithLineage(ledger, lease, lineage, now) <==>
              ActiveAt(lease, now) && ChainUnrevoked(ledger, ChainIds(lineage), now)
  {
    var ids := ChainIds(lineage);
    assert ids[0] == lease.id && ids[1..] == lineage.ancestors;
    assert forall i | 0 <= i < |lineage.ancestors| :: lineage.ancestors[i] == ids[i + 1];
  }

  lemma ChainUnrevokedMeans(ledger: Ledger, ids: seq<LeaseId>, now: nat)
    ensures ChainUnrevoked(ledger, ids, now) <==>
              !AnyConflict(ledger, ids) && forall y | y in Instants(ledger, ids) :: now < y
  {
    if ChainUnrevoked(ledger, ids, now) {
      forall y | y in Instants(ledger, ids) ensures now < y {
        var i :| 0 <= i < |ids| && ids[i] in ledger && ledger[ids[i]].Known? && ledger[ids[i]].fact.revokedAt == y;
        assert Unrevoked(ledger, ids[i], now);
      }
    }
    if !AnyConflict(ledger, ids) && forall y | y in Instants(ledger, ids) :: now < y {
      forall i | 0 <= i < |ids| ensures Unrevoked(ledger, ids[i], now) {
        assert !Conflicted(ledger, ids[i]);
        if ids[i] in ledger {
          assert ledger[ids[i]].fact.revokedAt in Instants(ledger, ids);
        }
      }
    }
  }

  /** The end of the interval always exists. */
  lemma {:induction false} LeastExists(s: set<nat>) returns (x: nat)
    requires s != {}
    ensures IsLeast(x, s)
  {
    var z :| z in s;
    x := z;
    if s - {z} != {} {
      var y := LeastExists(s - {z});
      x := if y < z then y else z;
    }
    assert forall y | y in s :: y == z || y in s - {z};
  }
}

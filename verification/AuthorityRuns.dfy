/** Delegated authority over whole runs.

    A world holds every lease that was ever issued, the revocation ledger and the clock. A run is
    any sequence of attempts to issue, delegate, promote, validate, revoke and let time pass;
    refused attempts change nothing. The usability check never looks at an ancestor's expiry or
    grants; the theorems say why it need not. */
module AuthorityRuns {
  import opened Wrappers
  import opened Grants
  import opened Leases
  import opened Lineages
  import opened Revocations

  datatype World = World(leases: set<Lease>, ledger: Ledger, now: nat)

  datatype Step =
    | IssueRoot(input: RootInput, policy: EmptyPolicy)
    | DelegateFrom(parent: Lease, child: DelegationInput, policy: EmptyPolicy)
    | PromoteRoot(wire: Wire, policy: EmptyPolicy)
    | ValidateWire(parent: Lease, wire: Wire, expected: Binding, policy: EmptyPolicy)
    | RecordFact(fact: Fact)
    | Advance(elapsed: nat)

  /** The lease a step would add; a parent must itself be a trusted lease of this world. */
  function Attempt(w: World, step: Step): Result<Lease, LeaseError> {
    match step
    case IssueRoot(input, policy) => Root(input, w.now, policy)
    case DelegateFrom(parent, child, policy) =>
      if parent in w.leases then Delegate(parent, child, w.now, policy) else Err(LineageMismatch)
    case PromoteRoot(wire, policy) => IntoVerifiedRoot(wire, w.now, policy)
    case ValidateWire(parent, wire, expected, policy) =>
      if parent in w.leases then ValidateDelegated(parent, wire, expected, w.now, policy) else Err(LineageMismatch)
    case RecordFact(_) => Err(LineageMismatch)
    case Advance(_) => Err(LineageMismatch)
  }

  function Apply(w: World, step: Step): World {
    match step
    case RecordFact(fact) => w.(ledger := Recorded(w.ledger, fact))
    case Advance(elapsed) => w.(now := w.now + elapsed)
    case _ =>
      var attempt := Attempt(w, step);
      if attempt.Ok? then w.(leases := w.leases + {attempt.value}) else w
  }

  function After(start: World, steps: seq<Step>): World {
    if steps == [] then start
    else Apply(After(start, steps[..|steps| - 1]), steps[|steps| - 1])
  }

  // -------------------------------------------------------------------------------------------
  // What a run adds up to

  /** The facts a run records, in order. */
  function FactsIn(steps: seq<Step>): seq<Fact> {
    if steps == [] then [] else
    var last := steps[|steps| - 1];
    FactsIn(steps[..|steps| - 1]) + if last.RecordFact? then [last.fact] else []
  }

  function TimeIn(steps: seq<Step>): nat {
    if steps == [] then 0 else
    var last := steps[|steps| - 1];
    TimeIn(steps[..|steps| - 1]) + if last.Advance? then last.elapsed else 0
  }

  /** The i-th step was granted `lease`. */
  predicate GrantedAt(start: World, steps: seq<Step>, i: nat, lease: Lease) {
    i < |steps| && Attempt(After(start, steps[..i]), steps[i]) == Ok(lease)
  }

  lemma ApplyAddsUp(w: World, step: Step)
    ensures Apply(w, step).ledger == if step.RecordFact? then Recorded(w.ledger, step.fact) else w.ledger
    ensures Apply(w, step).now == w.now + (if step.Advance? then step.elapsed else 0)
    ensures forall l :: l in Apply(w, step).leases <==> l in w.leases || Attempt(w, step) == Ok(l)
  {
  }

  lemma RecordedOneMore(ledger: Ledger, facts: seq<Fact>, fact: Fact)
    ensures RecordedAll(ledger, facts + [fact]) == Recorded(RecordedAll(ledger, facts), fact)
  {
    assert (facts + [fact])[..|facts|] == facts;
  }

  lemma {:induction false} LedgerAddsUp(start: World, steps: seq<Step>)
    ensures After(start, steps).ledger == RecordedAll(start.ledger, FactsIn(steps))
    ensures After(start, steps).now == start.now + TimeIn(steps)
  {
    if steps != [] {
      var front, last := steps[..|steps| - 1], steps[|steps| - 1];
      LedgerAddsUp(start, front);
      ApplyAddsUp(After(start, front), last);
      if last.RecordFact? {
        RecordedOneMore(start.ledger, FactsIn(front), last.fact);
      } else {
        assert FactsIn(front) + [] == FactsIn(front);
      }
    }
  }

  lemma {:induction false} LeasesAddUp(start: World, steps: seq<Step>, lease: Lease)
    ensures lease in After(start, steps).leases <==>
              lease in start.leases || exists i | 0 <= i < |steps| :: GrantedAt(start, steps, i, lease)
  {
    if steps != [] {
      var front, last := steps[..|steps| - 1], steps[|steps| - 1];
      LeasesAddUp(start, front, lease);
      GrantedAtLast(start, steps, lease);
      ApplyAddsUp(After(start, front), last);
    }
  }

  /** Nothing is lost and nothing is made up: every fact is in the ledger, all the time has passed,
      and the leases are those of the start and those that were granted. */
  lemma RunsAddUp(start: World, steps: seq<Step>)
    ensures After(start, steps).ledger == RecordedAll(start.ledger, FactsIn(steps))
    ensures After(start, steps).now == start.now + TimeIn(steps)
    ensures forall lease :: lease in After(start, steps).leases <==>
              lease in start.leases || exists i | 0 <= i < |steps| :: GrantedAt(start, steps, i, lease)
  {
    LedgerAddsUp(start, steps);
    forall lease
      ensures lease in After(start, steps).leases <==>
                lease in start.leases || exists i | 0 <= i < |steps| :: GrantedAt(start, steps, i, lease)
    {
      LeasesAddUp(start, steps, lease);
    }
  }

  lemma GrantedAtLast(start: World, steps: seq<Step>, lease: Lease)
    requires steps != []
    ensures var n := |steps| - 1;
            (exists i | 0 <= i <= n :: GrantedAt(start, steps, i, lease)) <==>
              || (exists i | 0 <= i < n :: GrantedAt(start, steps[..n], i, lease))
              || Attempt(After(start, steps[..n]), steps[n]) == Ok(lease)
  {
    var n := |steps| - 1;
    forall i | 0 <= i < n ensures GrantedAt(start, steps[..n], i, lease) <==> GrantedAt(start, steps, i, lease) {
      assert steps[..n][..i] == steps[..i];
    }
    assert GrantedAt(start, steps, n, lease) <==> Attempt(After(start, steps[..n]), steps[n]) == Ok(lease);
  }

  // -------------------------------------------------------------------------------------------
  // What every step keeps

  /** Every lease has begun, and is a root or a contraction of a lease of this world. */
  predicate Grounded(w: World) {
    forall l | l in w.leases ::
      && l.issued <= w.now
      && l.issued < l.expires
      && (l.parent.None? || exists p | p in w.leases :: Contracts(p, l))
  }

  lemma AttemptsAreGrounded(w: World, step: Step)
    requires Attempt(w, step).Ok?
    ensures var l := Attempt(w, step).value;
            && ActiveAt(l, w.now)
            && (l.parent.None? || exists p | p in w.leases :: Contracts(p, l))
  {
    match step
    case DelegateFrom(parent, child, policy) =>
      DelegationIsExact(parent, child, w.now, policy);
    case ValidateWire(parent, wire, expected, policy) =>
      DelegationIsExact(parent, DelegationInput(wire.id, wire.delegation, wire.subject, wire.task,
                                                wire.grants, wire.issued, wire.expires, wire.version), w.now, policy);
    case _ =>
  }

  lemma StepsKeepGrounded(w: World, step: Step)
    requires Grounded(w)
    ensures Grounded(Apply(w, step))
  {
    var v := Apply(w, step);
    if Attempt(w, step).Ok? {
      AttemptsAreGrounded(w, step);
    }
    forall l | l in v.leases
      ensures && l.issued <= v.now && l.issued < l.expires
              && (l.parent.None? || exists p | p in v.leases :: Contracts(p, l))
    {
      if l.parent.Some? {
        var p :| p in w.leases && Contracts(p, l);
        assert p in v.leases;
      }
    }
  }

  lemma {:induction false} RunsAreGrounded(start: World, steps: seq<Step>)
    requires Grounded(start)
    ensures Grounded(After(start, steps))
  {
    if steps != [] {
      RunsAreGrounded(start, steps[..|steps| - 1]);
      StepsKeepGrounded(After(start, steps[..|steps| - 1]), steps[|steps| - 1]);
    }
  }

  /** The rule an issuer of identities follows: never name a new lease like an existing one. */
  predicate UsesFreshId(w: World, step: Step) {
    Attempt(w, step).Ok? ==>
      forall l | l in w.leases :: l.id == Attempt(w, step).value.id ==> l == Attempt(w, step).value
  }

  predicate AlwaysFresh(start: World, steps: seq<Step>) {
    forall i | 0 <= i < |steps| :: UsesFreshId(After(start, steps[..i]), steps[i])
  }

  lemma {:induction false} FreshRunsDetermineIds(start: World, steps: seq<Step>)
    requires IdsDetermine(start.leases) && AlwaysFresh(start, steps)
    ensures IdsDetermine(After(start, steps).leases)
  {
    if steps != [] {
      var n := |steps| - 1;
      forall i | 0 <= i < n ensures UsesFreshId(After(start, steps[..n][..i]), steps[..n][i]) {
        assert steps[..n][..i] == steps[..i];
      }
      FreshRunsDetermineIds(start, steps[..n]);
    }
  }

  // -------------------------------------------------------------------------------------------
  // Safety of the usability check

  /** `descendant` holds no authority that `ancestor` did not hold, for longer or over more. */
  predicate Confines(ancestor: Lease, descendant: Lease) {
    && descendant.issuer == ancestor.issuer
    && descendant.task == ancestor.task
    && ancestor.issued <= descendant.issued
    && descendant.expires <= ancestor.expires
    && ancestor.version < descendant.version
    && forall g | g in descendant.grants :: HoldsDelegable(ancestor.grants, g)
  }

  lemma ConfinementComposes(a: Lease, b: Lease, c: Lease)
    requires Confines(a, b) && Confines(b, c)
    ensures Confines(a, c)
  {
    forall g | g in c.grants ensures HoldsDelegable(a.grants, g) {
      var p :| p in b.grants && p.capability == g.capability && p.resource == g.resource && p.delegable;
      var q :| q in a.grants && q.capability == p.capability && q.resource == p.resource && q.delegable;
    }
  }

  /** An accepted list of ancestors, all of them leases of this world. */
  predicate AcceptedIn(w: World, lease: Lease, ancestors: seq<Lease>) {
    && lease in w.leases && (forall a | a in ancestors :: a in w.leases)
    && ForLeaseSpec(lease, ancestors).Ok?
  }

  /** The i-th ancestor is usable when judged like any lease: with its own lineage. */
  predicate OwnLineageUsable(ledger: Ledger, ancestors: seq<Lease>, i: nat, now: nat)
    requires i < |ancestors|
  {
    var own := ForLeaseSpec(ancestors[i], ancestors[i + 1..]);
    own.Ok? && UsableWithLineage(ledger, ancestors[i], own.value, now)
  }

  lemma AncestorIsUsable(ledger: Ledger, lease: Lease, ancestors: seq<Lease>, now: nat, i: nat)
    requires IsLineage(lease, ancestors) && i < |ancestors| && Confines(ancestors[i], lease)
    requires UsableWithLineage(ledger, lease, Lineage(lease.id, Ids(ancestors)), now)
    ensures OwnLineageUsable(ledger, ancestors, i, now)
  {
    var rest := ancestors[i + 1..];
    SuffixIsLineage(lease, ancestors, i);
    AcceptedExactly(ancestors[i], rest);
    RootsHaveNoAncestors(ancestors[i], rest);
    var ids := Ids(ancestors);
    assert Unrevoked(ledger, ids[i], now);
    forall k | 0 <= k < |rest| ensures Unrevoked(ledger, Ids(rest)[k], now) {
      assert Unrevoked(ledger, ids[i + 1 + k], now);
    }
    assert ForLeaseSpec(ancestors[i], rest) == Ok(Lineage(ancestors[i].id, Ids(rest)));
  }

  /** Every ancestor is usable with its own lineage, and confines the lease. */
  predicate UnderUsableAncestors(ledger: Ledger, lease: Lease, ancestors: seq<Lease>, now: nat) {
    forall i | 0 <= i < |ancestors| ::
      OwnLineageUsable(ledger, ancestors, i, now) && Confines(ancestors[i], lease)
  }

  /** What the usability check is for, whatever has been revoked and whatever the time is. */
  ghost predicate Safe(w: World) {
    forall lease, ancestors, ledger, now: nat |
      AcceptedIn(w, lease, ancestors)
      && UsableWithLineage(ledger, lease, Lineage(lease.id, Ids(ancestors)), now) ::
      UnderUsableAncestors(ledger, lease, ancestors, now)
  }

  /** The nearest ancestor that can be offered for a lease confines it. */
  ghost predicate ParentsConfine(w: World) {
    forall lease, ancestors | AcceptedIn(w, lease, ancestors) && ancestors != [] :: Confines(ancestors[0], lease)
  }

  lemma AncestorsOfAccepted(w: World, lease: Lease, ancestors: seq<Lease>, i: nat)
    requires AcceptedIn(w, lease, ancestors) && i < |ancestors|
    ensures AcceptedIn(w, ancestors[i], ancestors[i + 1..])
  {
    AcceptedExactly(lease, ancestors);
    SuffixIsLineage(lease, ancestors, i);
    AcceptedExactly(ancestors[i], ancestors[i + 1..]);
  }

  lemma {:induction false} ConfinedByAll(w: World, lease: Lease, ancestors: seq<Lease>, i: nat)
    requires ParentsConfine(w) && AcceptedIn(w, lease, ancestors) && i < |ancestors|
    ensures Confines(ancestors[i], lease)
    decreases i
  {
    if i > 0 {
      ConfinedByAll(w, lease, ancestors, i - 1);
      AncestorsOfAccepted(w, lease, ancestors, i - 1);
      assert ancestors[i - 1 + 1..][0] == ancestors[i];
      ConfinementComposes(ancestors[i], ancestors[i - 1], lease);
    }
  }

  lemma ConfiningParentsSuffice(w: World, lease: Lease, ancestors: seq<Lease>, ledger: Ledger, now: nat)
    requires ParentsConfine(w) && AcceptedIn(w, lease, ancestors)
    requires UsableWithLineage(ledger, lease, Lineage(lease.id, Ids(ancestors)), now)
    ensures UnderUsableAncestors(ledger, lease, ancestors, now)
  {
    AcceptedExactly(lease, ancestors);
    forall i | 0 <= i < |ancestors|
      ensures OwnLineageUsable(ledger, ancestors, i, now) && Confines(ancestors[i], lease)
    {
      ConfinedByAll(w, lease, ancestors, i);
      AncestorIsUsable(ledger, lease, ancestors, now, i);
    }
  }

  /** The usability check, which never looks at an ancestor's expiry or grants, is safe in a world
      exactly when every parent that can be offered for a lease confines it. */
  lemma SafeExactlyWhen(w: World)
    requires Grounded(w)
    ensures Safe(w) <==> ParentsConfine(w)
  {
    if Safe(w) {
      forall lease, ancestors | AcceptedIn(w, lease, ancestors) && ancestors != []
        ensures Confines(ancestors[0], lease)
      {
        assert UsableWithLineage(map[], lease, Lineage(lease.id, Ids(ancestors)), lease.issued);
        assert UnderUsableAncestors(map[], lease, ancestors, lease.issued);
      }
    }
    if ParentsConfine(w) {
      forall lease, ancestors, ledger, now: nat |
        AcceptedIn(w, lease, ancestors)
        && UsableWithLineage(ledger, lease, Lineage(lease.id, Ids(ancestors)), now)
        ensures UnderUsableAncestors(ledger, lease, ancestors, now)
      {
        ConfiningParentsSuffice(w, lease, ancestors, ledger, now);
      }
    }
  }

  /** Where ids determine leases, the parent found by id is the lease that delegated. */
  lemma DeterminedParentsConfine(w: World)
    requires Grounded(w) && IdsDetermine(w.leases)
    ensures ParentsConfine(w)
  {
    forall lease, ancestors | AcceptedIn(w, lease, ancestors) && ancestors != []
      ensures Confines(ancestors[0], lease)
    {
      AcceptedExactly(lease, ancestors);
      RootsHaveNoAncestors(lease, ancestors);
      var p :| p in w.leases && Contracts(p, lease);
      assert ancestors[0] in ancestors && p == ancestors[0];
    }
  }

  /** Runs that never reuse an identity are safe, whatever they issue, delegate and revoke. */
  lemma FreshRunsAreSafe(start: World, steps: seq<Step>)
    requires start.leases == {} && AlwaysFresh(start, steps)
    ensures Safe(After(start, steps))
  {
    RunsAreGrounded(start, steps);
    FreshRunsDetermineIds(start, steps);
    DeterminedParentsConfine(After(start, steps));
    SafeExactlyWhen(After(start, steps));
  }

  /** In every such run, and in every other run whose parents confine, a lease found usable with an
      accepted lineage has only usable ancestors, each judged by its own lineage, and every one of
      them confines it; the last of them is a root. */
  lemma UsableOnlyUnderUsableAncestors(
      start: World, steps: seq<Step>, lease: Lease, ancestors: seq<Lease>, lineage: Lineage, now: nat)
    requires ParentsConfine(After(start, steps))
    requires lease in After(start, steps).leases
    requires forall a | a in ancestors :: a in After(start, steps).leases
    requires ForLeaseSpec(lease, ancestors) == Ok(lineage)
    requires UsableWithLineage(After(start, steps).ledger, lease, lineage, now)
    ensures UnderUsableAncestors(After(start, steps).ledger, lease, ancestors, now)
    ensures ancestors != [] ==> RootOf(ancestors).parent.None?
  {
    var w := After(start, steps);
    AcceptedExactly(lease, ancestors);
    RootsHaveNoAncestors(lease, ancestors);
    ConfiningParentsSuffice(w, lease, ancestors, w.ledger, now);
    var chain := [lease] + ancestors;
    assert ancestors != [] ==> chain[|chain| - 1] == RootOf(ancestors);
  }

  function RootOf(ancestors: seq<Lease>): Lease
    requires ancestors != []
  {
    ancestors[|ancestors| - 1]
  }

  // -------------------------------------------------------------------------------------------
  // Every lease has its lineage

  lemma {:induction false} LineageFromContractions(w: World, lease: Lease) returns (ancestors: seq<Lease>)
    requires Grounded(w) && lease in w.leases
    ensures forall a | a in ancestors :: a in w.leases && a.version < lease.version
    ensures Linked([lease] + ancestors)
    ensures forall i, j | 0 <= i < j < |ancestors| :: ancestors[j].version < ancestors[i].version
    ensures forall i | 0 < i <= |ancestors| :: Contracts(([lease] + ancestors)[i], ([lease] + ancestors)[i - 1])
    decreases lease.version
  {
    if lease.parent.None? {
      ancestors := [];
    } else {
      var p :| p in w.leases && Contracts(p, lease);
      var rest := LineageFromContractions(w, p);
      ancestors := [p] + rest;
      LinkedBehind(lease, ancestors);
      assert forall i | 0 < i <= |rest| :: ([lease] + ancestors)[i + 1] == ([p] + rest)[i];
    }
  }

  lemma LinkedBehind(lease: Lease, ancestors: seq<Lease>)
    requires Linked(ancestors) && lease.parent == Some(ancestors[0].id)
    ensures Linked([lease] + ancestors)
  {
    var chain := [lease] + ancestors;
    assert chain[1..] == ancestors && chain[0..] == chain;
    LinkedStep(chain, 0);
  }

  /** Every lease of a run has exactly one lineage among the run's leases, and it is accepted. */
  lemma EveryLeaseHasOneLineage(start: World, steps: seq<Step>, lease: Lease) returns (ancestors: seq<Lease>)
    requires start.leases == {}
    requires IdsDetermine(After(start, steps).leases) && lease in After(start, steps).leases
    ensures forall a | a in ancestors :: a in After(start, steps).leases
    ensures ForLeaseSpec(lease, ancestors).Ok?
    ensures forall other: seq<Lease> |
              && (forall a | a in other :: a in After(start, steps).leases)
              && ForLeaseSpec(lease, other).Ok? :: other == ancestors
  {
    var w := After(start, steps);
    RunsAreGrounded(start, steps);
    ancestors := LineageFromContractions(w, lease);
    var chain := [lease] + ancestors;
    forall i, j | 0 <= i < j < |chain| ensures chain[i].id != chain[j].id {
      assert chain[j] == ancestors[j - 1] && chain[j] in ancestors;
      assert i > 0 ==> chain[i] == ancestors[i - 1] && chain[i] in ancestors;
      assert chain[j].version < chain[i].version;
    }
    AcceptedExactly(lease, ancestors);
    forall other: seq<Lease> | (forall a | a in other :: a in w.leases) && ForLeaseSpec(lease, other).Ok?
      ensures other == ancestors
    {
      AcceptedExactly(lease, other);
      LineageIsUnique(w.leases, lease, other, ancestors);
    }
  }

  // -------------------------------------------------------------------------------------------
  // Authority is never regained

  lemma {:induction false} LaterMeansLess(w: World, more: seq<Step>, id: LeaseId, now: nat)
    ensures w.now <= After(w, more).now && w.leases <= After(w, more).leases
    ensures Unrevoked(After(w, more).ledger, id, now) ==> Unrevoked(w.ledger, id, now)
  {
    if more != [] {
      LaterMeansLess(w, more[..|more| - 1], id, now);
    }
  }

  /** A lease that has become unusable under its lineage stays so, whatever happens next. */
  lemma UnusableForever(start: World, steps: seq<Step>, more: seq<Step>, lease: Lease, lineage: Lineage)
    requires start.leases == {} && lease in After(start, steps).leases
    requires !UsableWithLineage(After(start, steps).ledger, lease, lineage, After(start, steps).now)
    ensures var later := After(After(start, steps), more);
            lease in later.leases && !UsableWithLineage(later.ledger, lease, lineage, later.now)
  {
    RunsAreGrounded(start, steps);
    var w := After(start, steps);
    var later := After(w, more);
    LaterMeansLess(w, more, lease.id, later.now);
    forall i | 0 <= i < |lineage.ancestors| && Unrevoked(later.ledger, lineage.ancestors[i], later.now)
      ensures Unrevoked(w.ledger, lineage.ancestors[i], w.now)
    {
      LaterMeansLess(w, more, lineage.ancestors[i], later.now);
    }
  }

  // -------------------------------------------------------------------------------------------
  // Why identities must be fresh

  function Plain(id: nat, parentOrNone: Option<Lease>, expires: nat): Lease {
    Lease(LeaseId(id), DelegationId(id + 100), PrincipalId(9), AgentId(id + 200), TaskId(11),
          if parentOrNone.Some? then Some(parentOrNone.value.id) else None,
          if parentOrNone.Some? then Some(parentOrNone.value.subject) else None,
          [], 0, expires, if parentOrNone.Some? then parentOrNone.value.version + 1 else 1)
  }

  function RootInputOf(l: Lease): RootInput {
    RootInput(l.id, l.delegation, l.issuer, l.subject, l.task, l.grants, l.issued, l.expires, l.version)
  }

  function DelegationInputOf(l: Lease): DelegationInput {
    DelegationInput(l.id, l.delegation, l.subject, l.task, l.grants, l.issued, l.expires, l.version)
  }

  /** A second root under an existing id is accepted in the true parent's place, and the child
      stays usable after that root has expired. */
  lemma ReusedIdsDefeatTheCheck() returns (steps: seq<Step>, child: Lease, imposter: Lease)
    ensures var w := After(World({}, map[], 0), steps);
            && child in w.leases && imposter in w.leases && !IdsDetermine(w.leases)
            && ForLeaseSpec(child, [imposter]) == Ok(Lineage(child.id, [imposter.id]))
            && UsableWithLineage(w.ledger, child, Lineage(child.id, [imposter.id]), 7)
            && !Usable(w.ledger, imposter, 7) && !Confines(imposter, child)
  {
    var parent := Plain(1, None, 10);
    child, imposter := Plain(2, Some(parent), 10), Plain(1, None, 5);
    var a := [IssueRoot(RootInputOf(parent), AllowEmpty)];
    var b := a + [DelegateFrom(parent, DelegationInputOf(child), AllowEmpty)];
    steps := b + [IssueRoot(RootInputOf(imposter), AllowEmpty)];
    var start := World({}, map[], 0);
    assert a[..0] == [] && b[..1] == a && steps[..2] == b;
    assert After(start, a) == World({parent}, map[], 0);
    assert After(start, b) == World({parent, child}, map[], 0);
    assert After(start, steps) == World({parent, child, imposter}, map[], 0);
    assert parent.id == imposter.id && parent != imposter;
    assert Ids([imposter]) == [imposter.id];
    assert Refusal(child, [imposter], 1, imposter.parent).None?;
  }

  /** So the check is not safe in every run. */
  lemma SomeRunsAreUnsafe() returns (steps: seq<Step>)
    ensures !Safe(After(World({}, map[], 0), steps))
  {
    var child, imposter;
    steps, child, imposter := ReusedIdsDefeatTheCheck();
    var w := After(World({}, map[], 0), steps);
    RunsAreGrounded(World({}, map[], 0), steps);
    SafeExactlyWhen(w);
    assert AcceptedIn(w, child, [imposter]);
    assert [imposter][0] == imposter;
  }

  /** `delegate` compares with the direct parent only, so an id may return further down a chain of
      delegations. Such a chain is then refused as a lineage, for the repetition alone: a linked
      chain is accepted exactly when its ids are distinct. */
  lemma LinkedAcceptedExactlyWhen(lease: Lease, ancestors: seq<Lease>)
    requires Linked([lease] + ancestors)
    ensures ForLeaseSpec(lease, ancestors).Ok? <==> DistinctIds([lease] + ancestors)
    ensures ForLeaseSpec(lease, ancestors).Err? ==>
              ForLeaseSpec(lease, ancestors).error == CurrentLeaseInAncestors
              || ForLeaseSpec(lease, ancestors).error == DuplicateAncestor
  {
    AcceptedExactly(lease, ancestors);
    LinkedRefusal(lease, ancestors, 0);
    var chain := [lease] + ancestors;
    assert chain[0] == lease;
    assert |chain| > 1 ==> chain[1 - 1].parent == Some(chain[1].id);
  }

  lemma {:induction false} LinkedRefusal(lease: Lease, ancestors: seq<Lease>, index: nat)
    requires Linked([lease] + ancestors) && index <= |ancestors|
    ensures var refusal := Refusal(lease, ancestors, index, ([lease] + ancestors)[index].parent);
            refusal.Some? ==> refusal.value == CurrentLeaseInAncestors || refusal.value == DuplicateAncestor
    decreases |ancestors| - index
  {
    var chain := [lease] + ancestors;
    if index < |ancestors| {
      assert chain[index + 1] == ancestors[index];
      assert chain[index + 1 - 1].parent == Some(chain[index + 1].id);
      LinkedRefusal(lease, ancestors, index + 1);
    }
  }

  /** The chain of delegations behind a lease of a run always exists; it is the lineage accepted for
      it exactly when no id occurs twice on it. */
  lemma DelegationChainExists(start: World, steps: seq<Step>, lease: Lease) returns (ancestors: seq<Lease>)
    requires start.leases == {} && lease in After(start, steps).leases
    ensures forall a | a in ancestors :: a in After(start, steps).leases
    ensures forall i | 0 < i <= |ancestors| :: Contracts(([lease] + ancestors)[i], ([lease] + ancestors)[i - 1])
    ensures ForLeaseSpec(lease, ancestors).Ok? <==> DistinctIds([lease] + ancestors)
  {
    RunsAreGrounded(start, steps);
    ancestors := LineageFromContractions(After(start, steps), lease);
    LinkedAcceptedExactlyWhen(lease, ancestors);
  }
}

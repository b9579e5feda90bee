/** Authority leases: issue, delegation and the wire form (crates/ward-authority/src/lib.rs). */
module Leases {
  import opened Wrappers
  import opened Grants

  datatype LeaseId = LeaseId(raw: nat)
  datatype DelegationId = DelegationId(raw: nat)
  datatype PrincipalId = PrincipalId(raw: nat)
  datatype AgentId = AgentId(raw: nat)
  datatype TaskId = TaskId(raw: nat)

  /** A non-zero lineage version. */
  type Version = v: nat | v > 0 witness 1

  datatype EmptyPolicy = RejectEmpty | AllowEmpty

  datatype LeaseError =
    | InvalidLifetime
    | NotYetValid
    | Expired
    | LeaseIdReuse
    | DelegationIdReuse
    | EmptyAuthorityNotAllowed
    | TaskMismatch
    | LifetimeOutsideParent
    | NonIncreasingVersion
    | AuthorityWidening
    | GrantNotDelegable
    | LineageMismatch
    | DelegationBindingMismatch

  datatype RootInput = RootInput(
    id: LeaseId, delegation: DelegationId, issuer: PrincipalId, subject: AgentId, task: TaskId,
    grants: GrantSet, issued: nat, expires: nat, version: Version)

  datatype DelegationInput = DelegationInput(
    id: LeaseId, delegation: DelegationId, subject: AgentId, task: TaskId,
    grants: GrantSet, issued: nat, expires: nat, version: Version)

  /** A trusted lease: usable in [issued, expires), in Unix milliseconds. */
  datatype Lease = Lease(
    id: LeaseId, delegation: DelegationId, issuer: PrincipalId, subject: AgentId, task: TaskId,
    parent: Option<LeaseId>, delegatedBy: Option<AgentId>,
    grants: GrantSet, issued: nat, expires: nat, version: Version)

  /** The same fields as read from untrusted bytes: grants nothing until validated. */
  datatype Wire = Wire(
    id: LeaseId, delegation: DelegationId, issuer: PrincipalId, subject: AgentId, task: TaskId,
    parent: Option<LeaseId>, delegatedBy: Option<AgentId>,
    grants: GrantSet, issued: nat, expires: nat, version: Version)

  /** The identity the control plane independently expects a child to have. */
  datatype Binding = Binding(
    id: LeaseId, delegation: DelegationId, subject: AgentId, task: TaskId, version: Version)

  function LifetimeError(issued: nat, expires: nat): Option<LeaseError> {
    if expires <= issued then Some(InvalidLifetime) else None
  }

  function IntervalError(issued: nat, expires: nat, now: nat): Option<LeaseError> {
    if now < issued then Some(NotYetValid)
    else if now >= expires then Some(Expired)
    else None
  }

  function EmptyError(grants: GrantSet, policy: EmptyPolicy): Option<LeaseError> {
    if grants == [] && policy == RejectEmpty then Some(EmptyAuthorityNotAllowed) else None
  }

  predicate ActiveAt(lease: Lease, now: nat) {
    lease.issued <= now < lease.expires
  }

  function Root(input: RootInput, now: nat, policy: EmptyPolicy): Result<Lease, LeaseError> {
    var lifetime := LifetimeError(input.issued, input.expires);
    if lifetime.Some? then Err(lifetime.value) else
    var interval := IntervalError(input.issued, input.expires, now);
    if interval.Some? then Err(interval.value) else
    var empty := EmptyError(input.grants, policy);
    if empty.Some? then Err(empty.value) else
    Ok(Lease(input.id, input.delegation, input.issuer, input.subject, input.task,
             None, None, input.grants, input.issued, input.expires, input.version))
  }

  /** The parent's first grant for the same scope, if any. */
  function FindGrant(held: seq<Grant>, wanted: Grant): (r: Option<Grant>)
    ensures r.Some? ==> r.value in held && SameScope(r.value, wanted)
    ensures r.None? ==> forall g | g in held :: !SameScope(g, wanted)
  {
    if held == [] then None
    else if SameScope(held[0], wanted) then Some(held[0])
    else FindGrant(held[1..], wanted)
  }

  /** The refusal of the first child grant the parent cannot pass on. */
  function GrantRefusal(held: seq<Grant>, wanted: seq<Grant>): Option<LeaseError> {
    if wanted == [] then None else
    var found := FindGrant(held, wanted[0]);
    if found.None? then Some(AuthorityWidening)
    else if !found.value.delegable then Some(GrantNotDelegable)
    else GrantRefusal(held, wanted[1..])
  }

  /** The checks of `delegate` before it looks at the grants, in order. */
  function HeaderRefusal(parent: Lease, input: DelegationInput, now: nat, policy: EmptyPolicy): Option<LeaseError> {
    var parentInterval := IntervalError(parent.issued, parent.expires, now);
    if parentInterval.Some? then parentInterval else
    var lifetime := LifetimeError(input.issued, input.expires);
    if lifetime.Some? then lifetime
    else if input.id == parent.id then Some(LeaseIdReuse)
    else if input.delegation == parent.delegation then Some(DelegationIdReuse)
    else if input.task != parent.task then Some(TaskMismatch)
    else if input.issued < parent.issued || input.expires > parent.expires then Some(LifetimeOutsideParent)
    else
    var interval := IntervalError(input.issued, input.expires, now);
    if interval.Some? then interval
    else if input.version <= parent.version then Some(NonIncreasingVersion)
    else EmptyError(input.grants, policy)
  }

  function ChildOf(parent: Lease, input: DelegationInput): Lease {
    Lease(input.id, input.delegation, parent.issuer, input.subject, parent.task,
          Some(parent.id), Some(parent.subject), input.grants, input.issued, input.expires, input.version)
  }

  function Delegate(parent: Lease, input: DelegationInput, now: nat, policy: EmptyPolicy): Result<Lease, LeaseError> {
    var header := HeaderRefusal(parent, input, now, policy);
    if header.Some? then Err(header.value) else
    var grants := GrantRefusal(parent.grants, input.grants);
    if grants.Some? then Err(grants.value) else Ok(ChildOf(parent, input))
  }

  /** `delegate` as it runs: the header checks, then a loop over the child's grants that returns
      at the first one the parent does not hold or may not pass on. */
  method DelegateByLoop(parent: Lease, input: DelegationInput, now: nat, policy: EmptyPolicy)
    returns (r: Result<Lease, LeaseError>)
    ensures r == Delegate(parent, input, now, policy)
  {
    var header := HeaderRefusal(parent, input, now, policy);
    if header.Some? {
      return Err(header.value);
    }
    for i := 0 to |input.grants|
      invariant GrantRefusal(parent.grants, input.grants) == GrantRefusal(parent.grants, input.grants[i..])
    {
      assert input.grants[i..][0] == input.grants[i] && input.grants[i..][1..] == input.grants[i + 1..];
      var found := FindGrant(parent.grants, input.grants[i]);
      if found.None? {
        return Err(AuthorityWidening);
      }
      if !found.value.delegable {
        return Err(GrantNotDelegable);
      }
    }
    return Ok(ChildOf(parent, input));
  }

  function ToWire(lease: Lease): Wire {
    Wire(lease.id, lease.delegation, lease.issuer, lease.subject, lease.task,
         lease.parent, lease.delegatedBy, lease.grants, lease.issued, lease.expires, lease.version)
  }

  function ValidateDelegated(parent: Lease, wire: Wire, expected: Binding, now: nat, policy: EmptyPolicy)
    : Result<Lease, LeaseError>
  {
    if wire.parent != Some(parent.id) || wire.delegatedBy != Some(parent.subject) || wire.issuer != parent.issuer then
      Err(LineageMismatch)
    else if || wire.id != expected.id || wire.delegation != expected.delegation
            || wire.subject != expected.subject || wire.task != expected.task || wire.version != expected.version then
      Err(DelegationBindingMismatch)
    else
      Delegate(parent,
               DelegationInput(wire.id, wire.delegation, wire.subject, wire.task,
                               wire.grants, wire.issued, wire.expires, wire.version),
               now, policy)
  }

  function IntoVerifiedRoot(wire: Wire, now: nat, policy: EmptyPolicy): Result<Lease, LeaseError> {
    if wire.parent.Some? || wire.delegatedBy.Some? then Err(LineageMismatch)
    else Root(RootInput(wire.id, wire.delegation, wire.issuer, wire.subject, wire.task,
                        wire.grants, wire.issued, wire.expires, wire.version),
              now, policy)
  }

  // -------------------------------------------------------------------------------------------
  // What delegation means

  /** `held` allows a child to receive the scope of `g`. */
  predicate HoldsDelegable(held: seq<Grant>, g: Grant) {
    exists p | p in held :: p.capability == g.capability && p.resource == g.resource && p.delegable
  }

  /** `child` is a contraction of `parent`: every dimension of authority is inherited or shrinks. */
  predicate Contracts(parent: Lease, child: Lease) {
    && child.parent == Some(parent.id)
    && child.delegatedBy == Some(parent.subject)
    && child.id != parent.id
    && child.delegation != parent.delegation
    && child.issuer == parent.issuer
    && child.task == parent.task
    && parent.issued <= child.issued < child.expires <= parent.expires
    && parent.version < child.version
    && forall g | g in child.grants :: HoldsDelegable(parent.grants, g)
  }

  /** A lease nobody delegated. */
  predicate RootShaped(lease: Lease) {
    lease.parent.None? && lease.delegatedBy.None? && lease.issued < lease.expires
  }

  predicate PolicyAdmits(grants: GrantSet, policy: EmptyPolicy) {
    grants != [] || policy == AllowEmpty
  }

  /** In a set without repeated scopes, finding the first match finds the only match. */
  lemma {:induction false} NoRefusalMeansDelegable(held: GrantSet, wanted: seq<Grant>)
    ensures GrantRefusal(held, wanted).None? <==> forall g | g in wanted :: HoldsDelegable(held, g)
  {
    if wanted != [] {
      NoRefusalMeansDelegable(held, wanted[1..]);
      assert wanted == [wanted[0]] + wanted[1..];
      assert (forall g | g in wanted :: HoldsDelegable(held, g)) <==>
             HoldsDelegable(held, wanted[0]) && forall g | g in wanted[1..] :: HoldsDelegable(held, g);
      var found := FindGrant(held, wanted[0]);
      if found.Some? && HoldsDelegable(held, wanted[0]) {
        var p :|
          p in held && p.capability == wanted[0].capability && p.resource == wanted[0].resource && p.delegable;
        var i :| 0 <= i < |held| && held[i] == p;
        var j :| 0 <= j < |held| && held[j] == found.value;
        assert SameScope(held[i], held[j]) && SameScope(held[j], held[i]);
        assert i == j;
      }
    }
  }

  predicate Holds(held: seq<Grant>, g: Grant) {
    exists p | p in held :: p.capability == g.capability && p.resource == g.resource
  }

  /** The i-th grant is the first one the parent cannot pass on. */
  predicate FirstRefused(held: seq<Grant>, wanted: seq<Grant>, i: nat) {
    i < |wanted| && !HoldsDelegable(held, wanted[i]) && forall j | 0 <= j < i :: HoldsDelegable(held, wanted[j])
  }

  /** A refused list is refused for its first offending grant: as a widening when the parent holds
      nothing for its capability and resource, and otherwise as not delegable. */
  lemma {:induction false} GrantRefusalNamed(held: GrantSet, wanted: seq<Grant>) returns (i: nat)
    requires GrantRefusal(held, wanted).Some?
    ensures FirstRefused(held, wanted, i)
    ensures GrantRefusal(held, wanted) ==
              Some(if Holds(held, wanted[i]) then GrantNotDelegable else AuthorityWidening)
  {
    NoRefusalMeansDelegable(held, wanted[..1]);
    var found := FindGrant(held, wanted[0]);
    assert wanted[..1] == [wanted[0]];
    if found.Some? && found.value.delegable {
      i := GrantRefusalNamed(held, wanted[1..]);
      assert forall j | 0 < j < |wanted| :: wanted[j] == wanted[1..][j - 1];
      i := i + 1;
    } else {
      i := 0;
      assert GrantRefusal(held, [wanted[0]]).Some?;
      assert !HoldsDelegable(held, wanted[0]);
    }
  }

  /** The checks of `delegate` before the grants, on the fields themselves, each with the error of a
      failure. */
  function HeaderChecks(parent: Lease, input: DelegationInput, now: nat, policy: EmptyPolicy)
    : (checks: seq<(bool, LeaseError)>)
    ensures |checks| == 11
  {
    [(parent.issued <= now, NotYetValid),
     (now < parent.expires, Expired),
     (input.issued < input.expires, InvalidLifetime),
     (input.id != parent.id, LeaseIdReuse),
     (input.delegation != parent.delegation, DelegationIdReuse),
     (input.task == parent.task, TaskMismatch),
     (parent.issued <= input.issued && input.expires <= parent.expires, LifetimeOutsideParent),
     (input.issued <= now, NotYetValid),
     (now < input.expires, Expired),
     (parent.version < input.version, NonIncreasingVersion),
     (input.grants != [] || policy == AllowEmpty, EmptyAuthorityNotAllowed)]
  }

  /** The first failed check names the refusal. */
  lemma HeaderRefusalNamed(parent: Lease, input: DelegationInput, now: nat, policy: EmptyPolicy, i: nat)
    requires i < 11 && !HeaderChecks(parent, input, now, policy)[i].0
    requires forall k | 0 <= k < i :: HeaderChecks(parent, input, now, policy)[k].0
    ensures Delegate(parent, input, now, policy) == Err(HeaderChecks(parent, input, now, policy)[i].1)
  {
    var checks := HeaderChecks(parent, input, now, policy);
    assert i > 0 ==> checks[0].0;
    assert i > 1 ==> checks[1].0;
    assert i > 2 ==> checks[2].0;
    assert i > 3 ==> checks[3].0;
    assert i > 4 ==> checks[4].0;
    assert i > 5 ==> checks[5].0;
    assert i > 6 ==> checks[6].0;
    assert i > 7 ==> checks[7].0;
    assert i > 8 ==> checks[8].0;
    assert i > 9 ==> checks[9].0;
  }

  function RootChecks(input: RootInput, now: nat, policy: EmptyPolicy): (checks: seq<(bool, LeaseError)>)
    ensures |checks| == 4
  {
    [(input.issued < input.expires, InvalidLifetime),
     (input.issued <= now, NotYetValid),
     (now < input.expires, Expired),
     (input.grants != [] || policy == AllowEmpty, EmptyAuthorityNotAllowed)]
  }

  lemma RootRefusalNamed(input: RootInput, now: nat, policy: EmptyPolicy, i: nat)
    requires i < 4 && !RootChecks(input, now, policy)[i].0
    requires forall k | 0 <= k < i :: RootChecks(input, now, policy)[k].0
    ensures Root(input, now, policy) == Err(RootChecks(input, now, policy)[i].1)
  {
    var checks := RootChecks(input, now, policy);
    assert i > 0 ==> checks[0].0;
    assert i > 1 ==> checks[1].0;
    assert i > 2 ==> checks[2].0;
  }

  predicate HeaderPasses(parent: Lease, input: DelegationInput, now: nat, policy: EmptyPolicy) {
    forall k | 0 <= k < 11 :: HeaderChecks(parent, input, now, policy)[k].0
  }

  lemma PassedHeaderRefusesNothing(parent: Lease, input: DelegationInput, now: nat, policy: EmptyPolicy)
    requires HeaderPasses(parent, input, now, policy)
    ensures HeaderRefusal(parent, input, now, policy).None?
  {
    var checks := HeaderChecks(parent, input, now, policy);
    assert checks[0].0 && checks[1].0 && checks[2].0 && checks[3].0 && checks[4].0 && checks[5].0;
    assert checks[6].0 && checks[7].0 && checks[8].0 && checks[9].0 && checks[10].0;
  }

  /** With no failed check the grants decide: the first one the parent cannot pass on names the
      refusal, and without such a grant the child is issued. */
  lemma GrantsDecide(parent: Lease, input: DelegationInput, now: nat, policy: EmptyPolicy, i: nat)
    requires HeaderPasses(parent, input, now, policy)
    ensures Delegate(parent, input, now, policy).Ok? <==>
              forall g | g in input.grants :: HoldsDelegable(parent.grants, g)
    ensures FirstRefused(parent.grants, input.grants, i) ==>
              Delegate(parent, input, now, policy) ==
              Err(if Holds(parent.grants, input.grants[i]) then GrantNotDelegable else AuthorityWidening)
  {
    PassedHeaderRefusesNothing(parent, input, now, policy);
    NoRefusalMeansDelegable(parent.grants, input.grants);
    if FirstRefused(parent.grants, input.grants, i) {
      assert input.grants[i] in input.grants;
      var first := GrantRefusalNamed(parent.grants, input.grants);
      assert first == i;
    }
  }

  /** Validating a wire value against a parent, whoever chose the expected identity, succeeds
      exactly when the wire is an active contraction of an active parent carrying that identity,
      and then the lease is that wire, unaltered. */
  lemma ValidationIsExact(parent: Lease, wire: Wire, expected: Binding, now: nat, policy: EmptyPolicy)
    ensures ValidateDelegated(parent, wire, expected, now, policy).Ok? <==>
            exists child ::
              && ToWire(child) == wire
              && Contracts(parent, child) && ActiveAt(parent, now) && ActiveAt(child, now)
              && PolicyAdmits(child.grants, policy)
              && Binding(child.id, child.delegation, child.subject, child.task, child.version) == expected
    ensures ValidateDelegated(parent, wire, expected, now, policy).Ok? ==>
              ToWire(ValidateDelegated(parent, wire, expected, now, policy).value) == wire
  {
    NoRefusalMeansDelegable(parent.grants, wire.grants);
    var r := ValidateDelegated(parent, wire, expected, now, policy);
    if r.Ok? {
      assert Contracts(parent, r.value);
    }
  }

  /** Delegation accepts exactly the active contractions of an active parent. */
  lemma DelegationIsExact(parent: Lease, input: DelegationInput, now: nat, policy: EmptyPolicy)
    ensures Delegate(parent, input, now, policy).Ok? <==>
            && Contracts(parent, ChildOf(parent, input)) && input.task == parent.task
            && ActiveAt(parent, now) && ActiveAt(ChildOf(parent, input), now)
            && PolicyAdmits(input.grants, policy)
  {
    NoRefusalMeansDelegable(parent.grants, input.grants);
  }

  /** Promotion of a signed root is exact in the same sense. */
  lemma PromotionIsExact(wire: Wire, now: nat, policy: EmptyPolicy)
    ensures IntoVerifiedRoot(wire, now, policy).Ok? <==>
            exists lease :: && ToWire(lease) == wire && RootShaped(lease) && ActiveAt(lease, now)
                            && PolicyAdmits(lease.grants, policy)
    ensures IntoVerifiedRoot(wire, now, policy).Ok? ==> ToWire(IntoVerifiedRoot(wire, now, policy).value) == wire
  {
    var r := IntoVerifiedRoot(wire, now, policy);
    if r.Ok? {
      assert RootShaped(r.value);
    }
  }

  /** The two routes from wire data to authority are disjoint, at any two instants. */
  lemma RoutesAreDisjoint(parent: Lease, wire: Wire, expected: Binding, t: nat, u: nat, p: EmptyPolicy, q: EmptyPolicy)
    ensures !(ValidateDelegated(parent, wire, expected, t, p).Ok? && IntoVerifiedRoot(wire, u, q).Ok?)
  {
  }

  /** Every delegated child revalidates to itself, and every root promotes to itself. */
  lemma IssuedLeasesRevalidate(parent: Lease, input: DelegationInput, root: RootInput, now: nat, policy: EmptyPolicy)
    ensures var child := Delegate(parent, input, now, policy);
            child.Ok? ==>
              ValidateDelegated(parent, ToWire(child.value),
                Binding(input.id, input.delegation, input.subject, input.task, input.version), now, policy) == child
    ensures var lease := Root(root, now, policy);
            lease.Ok? ==> IntoVerifiedRoot(ToWire(lease.value), now, policy) == lease
  {
  }
}

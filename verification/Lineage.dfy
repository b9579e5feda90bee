/** Complete delegation lineages (crates/ward-authority/src/revocation.rs). */
module Lineages {
  import opened Wrappers
  import opened Leases

  /** A lease's identity with its ancestors', nearest parent first. */
  datatype Lineage = Lineage(lease: LeaseId, ancestors: seq<LeaseId>)

  datatype LineageError =
    | UnexpectedAncestorsForRoot
    | DirectParentMismatch
    | NonContiguousAncestor
    | IncompleteAncestors
    | AncestorBeyondRoot
    | CurrentLeaseInAncestors
    | DuplicateAncestor

  function Ids(leases: seq<Lease>): (r: seq<LeaseId>)
    ensures |r| == |leases| && forall i | 0 <= i < |r| :: r[i] == leases[i].id
  {
    seq(|leases|, i requires 0 <= i < |leases| => leases[i].id)
  }

  predicate DistinctIds(leases: seq<Lease>) {
    forall i, j | 0 <= i < j < |leases| :: leases[i].id != leases[j].id
  }

  /** Every lease names the next one as its parent, and the last one is a root. */
  predicate Linked(chain: seq<Lease>) {
    && chain != []
    && (forall i | 0 < i < |chain| :: chain[i - 1].parent == Some(chain[i].id))
    && chain[|chain| - 1].parent.None?
  }

  /** What a lineage is: the whole contiguous parent chain, without repetition. */
  predicate IsLineage(lease: Lease, ancestors: seq<Lease>) {
    Linked([lease] + ancestors) && DistinctIds([lease] + ancestors)
  }

  /** The refusal of the first ancestor, from position `index` on, that does not continue the
      chain; `expected` is the parent the previous lease named. */
  function Refusal(lease: Lease, ancestors: seq<Lease>, index: nat, expected: Option<LeaseId>): Option<LineageError>
    requires index <= |ancestors|
    decreases |ancestors| - index
  {
    if index == |ancestors| then
      if expected.Some? then Some(IncompleteAncestors) else None
    else
      var id := ancestors[index].id;
      if id == lease.id then Some(CurrentLeaseInAncestors)
      else if id in Ids(ancestors[..index]) then Some(DuplicateAncestor)
      else if expected.None? then Some(AncestorBeyondRoot)
      else if id != expected.value then
        Some(if index == 0 then DirectParentMismatch else NonContiguousAncestor)
      else Refusal(lease, ancestors, index + 1, ancestors[index].parent)
  }

  function ForLeaseSpec(lease: Lease, ancestors: seq<Lease>): Result<Lineage, LineageError> {
    if lease.parent.None? then
      if ancestors == [] then Ok(Lineage(lease.id, [])) else Err(UnexpectedAncestorsForRoot)
    else
      var refusal := Refusal(lease, ancestors, 0, lease.parent);
      if refusal.Some? then Err(refusal.value) else Ok(Lineage(lease.id, Ids(ancestors)))
  }

  method ForLease(lease: Lease, ancestors: seq<Lease>) returns (r: Result<Lineage, LineageError>)
    ensures r == ForLeaseSpec(lease, ancestors)
    ensures r.Ok? <==> IsLineage(lease, ancestors)
    ensures r.Ok? ==> r.value == Lineage(lease.id, Ids(ancestors))
  {
    AcceptedExactly(lease, ancestors);
    if lease.parent.None? {
      if ancestors == [] {
        return Ok(Lineage(lease.id, []));
      }
      return Err(UnexpectedAncestorsForRoot);
    }
    var expectedParent := lease.parent;
    var seen: set<LeaseId> := {};
    var ancestorIds: seq<LeaseId> := [];
    for index := 0 to |ancestors|
      invariant Refusal(lease, ancestors, 0, lease.parent) == Refusal(lease, ancestors, index, expectedParent)
      invariant ancestorIds == Ids(ancestors[..index])
      invariant seen == set id | id in ancestorIds
    {
      var ancestor := ancestors[index];
      if ancestor.id == lease.id {
        return Err(CurrentLeaseInAncestors);
      }
      if ancestor.id in seen {
        return Err(DuplicateAncestor);
      }
      seen := seen + {ancestor.id};
      if expectedParent.None? {
        return Err(AncestorBeyondRoot);
      }
      if ancestor.id != expectedParent.value {
        return Err(if index == 0 then DirectParentMismatch else NonContiguousAncestor);
      }
      ancestorIds := ancestorIds + [ancestor.id];
      expectedParent := ancestor.parent;
    }
    assert ancestors[..|ancestors|] == ancestors;
    if expectedParent.Some? {
      return Err(IncompleteAncestors);
    }
    return Ok(Lineage(lease.id, ancestorIds));
  }

  /** The walk from `index` refuses nothing exactly when the rest of the chain is linked and adds
      no repetition to the part already walked. */
  lemma {:induction false} NoRefusalMeansLinked(lease: Lease, ancestors: seq<Lease>, index: nat)
    requires index <= |ancestors|
    requires DistinctIds(([lease] + ancestors)[..index + 1])
    ensures Refusal(lease, ancestors, index, ([lease] + ancestors)[index].parent).None? <==>
              Linked(([lease] + ancestors)[index..]) && DistinctIds([lease] + ancestors)
    decreases |ancestors| - index
  {
    var chain := [lease] + ancestors;
    if index == |ancestors| {
      assert chain[..index + 1] == chain;
    } else {
      var id := ancestors[index].id;
      assert chain[index + 1].id == id && chain[0].id == lease.id;
      if id == lease.id {
        assert !DistinctIds(chain);
      } else if id in Ids(ancestors[..index]) {
        var k :| 0 <= k < index && ancestors[k].id == id;
        assert chain[k + 1].id == chain[index + 1].id;
      } else {
        FreshIdExtends(chain, index + 1, lease, ancestors);
        NoRefusalMeansLinked(lease, ancestors, index + 1);
        LinkedStep(chain, index);
      }
    }
  }

  lemma FreshIdExtends(chain: seq<Lease>, n: nat, lease: Lease, ancestors: seq<Lease>)
    requires chain == [lease] + ancestors && 0 < n < |chain| && DistinctIds(chain[..n])
    requires chain[n].id != lease.id && chain[n].id !in Ids(ancestors[..n - 1])
    ensures DistinctIds(chain[..n + 1])
  {
    forall i | 0 <= i < n ensures chain[i].id != chain[n].id {
      if i > 0 { assert Ids(ancestors[..n - 1])[i - 1] == chain[i].id; }
    }
    assert forall i | 0 <= i < n :: chain[..n][i] == chain[i];
  }

  /** A chain is linked when its head names the second lease and the rest is linked. */
  lemma LinkedStep(chain: seq<Lease>, i: nat)
    requires i + 1 < |chain|
    ensures Linked(chain[i..]) <==> chain[i].parent == Some(chain[i + 1].id) && Linked(chain[i + 1..])
  {
    var here, next := chain[i..], chain[i + 1..];
    assert here[0] == chain[i] && here[1] == chain[i + 1];
    assert forall k | 0 <= k < |next| :: next[k] == here[k + 1];
    if chain[i].parent == Some(chain[i + 1].id) && Linked(next) {
      forall k | 0 < k < |here| ensures here[k - 1].parent == Some(here[k].id) {
        if k > 1 { assert next[k - 1 - 1].parent == Some(next[k - 1].id); }
      }
    }
    if Linked(here) {
      forall k | 0 < k < |next| ensures next[k - 1].parent == Some(next[k].id) {
        assert here[k + 1 - 1].parent == Some(here[k + 1].id);
      }
    }
  }

  /** A list of ancestors is accepted exactly when it is the lease's lineage. */
  lemma AcceptedExactly(lease: Lease, ancestors: seq<Lease>)
    ensures ForLeaseSpec(lease, ancestors).Ok? <==> IsLineage(lease, ancestors)
  {
    var chain := [lease] + ancestors;
    assert chain[0..] == chain;
    if lease.parent.None? {
      if ancestors != [] { LinkedStep(chain, 0); }
    } else {
      NoRefusalMeansLinked(lease, ancestors, 0);
    }
  }

  // -------------------------------------------------------------------------------------------
  // Which refusal

  /** The parent named by the lease before position `i`. */
  function NamedBefore(lease: Lease, ancestors: seq<Lease>, i: nat): Option<LeaseId>
    requires i <= |ancestors|
  {
    if i == 0 then lease.parent else ancestors[i - 1].parent
  }

  predicate Repeats(ancestors: seq<Lease>, i: nat)
    requires i < |ancestors|
  {
    exists k | 0 <= k < i :: ancestors[k].id == ancestors[i].id
  }

  /** What is wrong at position `i`, the end of the list included. */
  function FaultAt(lease: Lease, ancestors: seq<Lease>, i: nat): Option<LineageError>
    requires i <= |ancestors|
  {
    var named := NamedBefore(lease, ancestors, i);
    if i == |ancestors| then (if named.Some? then Some(IncompleteAncestors) else None)
    else if ancestors[i].id == lease.id then Some(CurrentLeaseInAncestors)
    else if Repeats(ancestors, i) then Some(DuplicateAncestor)
    else if named.None? then Some(AncestorBeyondRoot)
    else if named != Some(ancestors[i].id) then Some(if i == 0 then DirectParentMismatch else NonContiguousAncestor)
    else None
  }

  /** A delegated lease's list is refused for its first fault, and accepted when it has none. */
  lemma FirstFaultIsNamed(lease: Lease, ancestors: seq<Lease>, i: nat)
    requires lease.parent.Some? && i <= |ancestors|
    requires forall k | 0 <= k < i :: FaultAt(lease, ancestors, k).None?
    ensures FaultAt(lease, ancestors, i).Some? ==>
              ForLeaseSpec(lease, ancestors) == Err(FaultAt(lease, ancestors, i).value)
    ensures i == |ancestors| && FaultAt(lease, ancestors, i).None? ==>
              ForLeaseSpec(lease, ancestors) == Ok(Lineage(lease.id, Ids(ancestors)))
  {
    RefusalReaches(lease, ancestors, i);
    SeenMeansRepeats(ancestors, i);
  }

  lemma SeenMeansRepeats(ancestors: seq<Lease>, i: nat)
    ensures i < |ancestors| ==> (ancestors[i].id in Ids(ancestors[..i]) <==> Repeats(ancestors, i))
  {
    if i < |ancestors| {
      var seen := Ids(ancestors[..i]);
      assert |seen| == i && forall k | 0 <= k < i :: seen[k] == ancestors[k].id;
    }
  }

  lemma {:induction false} RefusalReaches(lease: Lease, ancestors: seq<Lease>, i: nat)
    requires i <= |ancestors| && forall k | 0 <= k < i :: FaultAt(lease, ancestors, k).None?
    ensures Refusal(lease, ancestors, 0, lease.parent) ==
              Refusal(lease, ancestors, i, NamedBefore(lease, ancestors, i))
  {
    if i > 0 {
      RefusalReaches(lease, ancestors, i - 1);
      SeenMeansRepeats(ancestors, i - 1);
      assert FaultAt(lease, ancestors, i - 1).None?;
    }
  }

  /** An ancestor's own lineage is the rest of the list. */
  lemma SuffixIsLineage(lease: Lease, ancestors: seq<Lease>, i: nat)
    requires IsLineage(lease, ancestors) && i < |ancestors|
    ensures IsLineage(ancestors[i], ancestors[i + 1..])
  {
    var chain := [lease] + ancestors;
    var rest := [ancestors[i]] + ancestors[i + 1..];
    assert forall k | 0 <= k < |rest| :: rest[k] == chain[i + 1 + k];
    forall k | 0 < k < |rest| ensures rest[k - 1].parent == Some(rest[k].id) {
      assert chain[i + 1 + k - 1].parent == Some(chain[i + 1 + k].id);
    }
  }

  /** Where an identity names one lease only, a lease has at most one lineage. */
  lemma {:induction false} LineageIsUnique(trusted: set<Lease>, lease: Lease, a: seq<Lease>, b: seq<Lease>)
    requires IdsDetermine(trusted)
    requires (forall l | l in a :: l in trusted) && (forall l | l in b :: l in trusted)
    requires IsLineage(lease, a) && IsLineage(lease, b)
    ensures a == b
    decreases |a|
  {
    RootsHaveNoAncestors(lease, a);
    RootsHaveNoAncestors(lease, b);
    if a != [] {
      assert a == [a[0]] + a[1..] && b == [b[0]] + b[1..];
      SameParent(trusted, lease, a, b);
      LineageIsUnique(trusted, a[0], a[1..], b[1..]);
    }
  }

  lemma SameParent(trusted: set<Lease>, lease: Lease, a: seq<Lease>, b: seq<Lease>)
    requires IdsDetermine(trusted) && a != [] && b != [] && a[0] in trusted && b[0] in trusted
    requires IsLineage(lease, a) && IsLineage(lease, b)
    ensures a[0] == b[0] && IsLineage(a[0], a[1..]) && IsLineage(b[0], b[1..])
  {
    RootsHaveNoAncestors(lease, a);
    RootsHaveNoAncestors(lease, b);
    SuffixIsLineage(lease, a, 0);
    SuffixIsLineage(lease, b, 0);
  }

  lemma RootsHaveNoAncestors(lease: Lease, ancestors: seq<Lease>)
    requires IsLineage(lease, ancestors)
    ensures ancestors == [] <==> lease.parent.None?
    ensures ancestors != [] ==> lease.parent == Some(ancestors[0].id)
  {
    var chain := [lease] + ancestors;
    assert chain[0] == lease;
    assert |chain| > 1 ==> chain[1 - 1].parent == Some(chain[1].id);
  }

  predicate IdsDetermine(trusted: set<Lease>) {
    forall x, y | x in trusted && y in trusted && x.id == y.id :: x == y
  }
}

/** Capability grants and their canonical sets (crates/ward-authority/src/lib.rs).

    `GrantSet::new` sorts and then compares neighbours only. The theorems say that this finds
    every duplicate scope, that the arrival order of the grants is invisible in the result, and
    that decoding admits exactly one wire order per set. */
module Grants {
  import opened Wrappers
  import opened Ordering

  datatype Grant = Grant(capability: string, resource: string, delegable: bool)

  predicate SameScope(a: Grant, b: Grant) {
    a.capability == b.capability && a.resource == b.resource
  }

  /** The derived field-by-field order: capability, resource, then `false` before `true`. */
  predicate GrantLe(a: Grant, b: Grant) {
    || TextLess(a.capability, b.capability)
    || (a.capability == b.capability
        && (|| TextLess(a.resource, b.resource)
            || (a.resource == b.resource && (a.delegable ==> b.delegable))))
  }

  datatype GrantSetError = DuplicateGrant | NonCanonicalOrder

  /** No two grants agree on both the capability and the resource. */
  predicate DistinctScopes(s: seq<Grant>) {
    forall i, j | 0 <= i < j < |s| :: s[i].capability != s[j].capability || s[i].resource != s[j].resource
  }

  predicate Canonical(s: seq<Grant>) {
    Sorted(GrantLe, s) && DistinctScopes(s)
  }

  /** The only values `GrantSet` can hold: its constructors are `New` and `Decode`. */
  type GrantSet = s: seq<Grant> | Canonical(s) witness []

  lemma GrantLeIsTransitive(a: Grant, b: Grant, c: Grant)
    requires GrantLe(a, b) && GrantLe(b, c)
    ensures GrantLe(a, c)
    ensures SameScope(a, c) ==> SameScope(a, b)
  {
    TextLessIsStrict(a.capability, b.capability);
    TextLessIsStrict(b.resource, a.resource);
    if TextLess(a.capability, b.capability) && TextLess(b.capability, c.capability) {
      TextLessIsTransitive(a.capability, b.capability, c.capability);
      TextLessIsStrict(a.capability, c.capability);
    } else if TextLess(a.resource, b.resource) && TextLess(b.resource, c.resource) {
      TextLessIsTransitive(a.resource, b.resource, c.resource);
      TextLessIsStrict(a.resource, c.resource);
    }
  }

  /** The capability decides first, then the resource, then `delegable`. */
  lemma GrantsOrderByFields(a: Grant, b: Grant)
    requires a != b && GrantLe(a, b)
    ensures || TextLess(a.capability, b.capability)
            || (a.capability == b.capability && TextLess(a.resource, b.resource))
            || b == a.(delegable := true)
    ensures !GrantLe(b, a)
  {
    TextLessIsStrict(a.capability, b.capability);
    TextLessIsStrict(a.resource, b.resource);
  }

  lemma GrantLeIsTotal()
    ensures TotalOrder(GrantLe)
  {
    forall a, b ensures GrantLe(a, b) || GrantLe(b, a) {
      TextLessIsStrict(a.capability, b.capability);
      TextLessIsStrict(a.resource, b.resource);
    }
    forall a, b | GrantLe(a, b) && GrantLe(b, a) ensures a == b {
      TextLessIsStrict(a.capability, b.capability);
      TextLessIsStrict(a.resource, b.resource);
    }
    forall a, b, c | GrantLe(a, b) && GrantLe(b, c) ensures GrantLe(a, c) {
      GrantLeIsTransitive(a, b, c);
    }
  }

  /** In a sorted list equal scopes are neighbours, so looking at neighbours is enough. */
  lemma NeighboursSuffice(s: seq<Grant>)
    requires Sorted(GrantLe, s)
    requires forall i | 0 < i < |s| :: !SameScope(s[i - 1], s[i])
    ensures DistinctScopes(s)
  {
    forall i, j | 0 <= i < j < |s| ensures !SameScope(s[i], s[j]) {
      if i + 1 < j {
        GrantLeIsTransitive(s[i], s[i + 1], s[j]);
      }
      assert !SameScope(s[i + 1 - 1], s[i + 1]);
    }
  }

  /** Whether scopes repeat does not depend on the order of the list. */
  lemma DistinctScopesIgnoreOrder(a: seq<Grant>, b: seq<Grant>)
    requires multiset(a) == multiset(b) && DistinctScopes(a)
    ensures DistinctScopes(b)
  {
    forall i: nat, j: nat | i < j < |b| ensures !SameScope(b[i], b[j]) {
      assert b[i] in multiset(a) && b[j] in multiset(a);
      if b[i] == b[j] {
        OccursTwice(b, i, j);
        var m, n := TwoOccurrences(a, b[i]);
      }
    }
  }

  /** What `GrantSet::new` promises, with no mention of neighbours. */
  function NewSpec(grants: seq<Grant>): (r: Result<seq<Grant>, GrantSetError>) {
    if DistinctScopes(grants) then Ok(Sort(GrantLe, grants)) else Err(DuplicateGrant)
  }

  method New(grants: seq<Grant>) returns (r: Result<seq<Grant>, GrantSetError>)
    ensures r.Ok? <==> DistinctScopes(grants)
    ensures r.Ok? ==> Canonical(r.value) && multiset(r.value) == multiset(grants)
    ensures r == NewSpec(grants)
  {
    var values := Sort(GrantLe, grants);
    GrantLeIsTotal();
    SortSorts(GrantLe, grants);
    var i := 1;
    while i < |values|
      invariant forall k | 0 < k < i && k < |values| :: !SameScope(values[k - 1], values[k])
    {
      if SameScope(values[i - 1], values[i]) {
        if DistinctScopes(grants) {
          DistinctScopesIgnoreOrder(grants, values);
        }
        return Err(DuplicateGrant);
      }
      i := i + 1;
    }
    NeighboursSuffice(values);
    DistinctScopesIgnoreOrder(values, grants);
    return Ok(values);
  }

  /** The decoder of `GrantSet`: rebuild the canonical set and insist the wire already was it. */
  method Decode(wire: seq<Grant>) returns (r: Result<seq<Grant>, GrantSetError>)
    ensures r.Ok? <==> Canonical(wire)
    ensures r.Ok? ==> r.value == wire
    ensures r == Err(DuplicateGrant) <==> !DistinctScopes(wire)
  {
    var canonical := New(wire);
    if Canonical(wire) {
      GrantLeIsTotal();
      SortSorts(GrantLe, wire);
      SortedPermutationIsUnique(GrantLe, wire, Sort(GrantLe, wire));
    }
    if canonical.Err? {
      return canonical;
    }
    if canonical.value != wire {
      return Err(NonCanonicalOrder);
    }
    return canonical;
  }

  /** The arrival order of the grants cannot be seen in the outcome. */
  lemma NewIgnoresOrder(a: seq<Grant>, b: seq<Grant>)
    requires multiset(a) == multiset(b)
    ensures NewSpec(a) == NewSpec(b)
  {
    GrantLeIsTotal();
    SortIgnoresOrder(GrantLe, a, b);
    if DistinctScopes(a) {
      DistinctScopesIgnoreOrder(a, b);
    } else if DistinctScopes(b) {
      DistinctScopesIgnoreOrder(b, a);
    }
  }

  /** One wire order per set: two decodable encodings of the same grants are identical, and a
      list without repeated scopes has such an encoding. */
  lemma OneWireOrderPerSet(a: seq<Grant>, b: seq<Grant>)
    requires multiset(a) == multiset(b)
    ensures Canonical(a) && Canonical(b) ==> a == b
    ensures DistinctScopes(a) ==> NewSpec(a).Ok? && Canonical(NewSpec(a).value)
                                  && multiset(NewSpec(a).value) == multiset(b)
  {
    GrantLeIsTotal();
    if Canonical(a) && Canonical(b) {
      SortedPermutationIsUnique(GrantLe, a, b);
    }
    SortSorts(GrantLe, a);
    if DistinctScopes(a) {
      DistinctScopesIgnoreOrder(a, Sort(GrantLe, a));
    }
  }
}

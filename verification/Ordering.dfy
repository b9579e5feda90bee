/** Total orders, sorting and uniqueness of the sorted form.

    The source sorts vectors with the standard library and then relies on two facts only:
    the result is a sorted permutation, and there is just one such sequence. `Sort` stands for
    the library call; `SortedPermutationIsUnique` is why its internals do not matter. */
module Ordering {

  ghost predicate TotalOrder<T(!new)>(le: (T, T) -> bool) {
    && (forall a, b :: le(a, b) || le(b, a))
    && (forall a, b :: le(a, b) && le(b, a) ==> a == b)
    && (forall a, b, c :: le(a, b) && le(b, c) ==> le(a, c))
  }

  predicate Sorted<T>(le: (T, T) -> bool, s: seq<T>) {
    forall i, j | 0 <= i < j < |s| :: le(s[i], s[j])
  }

  function Insert<T>(le: (T, T) -> bool, x: T, s: seq<T>): seq<T> {
    if s == [] then [x]
    else if le(x, s[0]) then [x] + s
    else [s[0]] + Insert(le, x, s[1..])
  }

  function Sort<T>(le: (T, T) -> bool, s: seq<T>): seq<T> {
    if s == [] then [] else Insert(le, s[0], Sort(le, s[1..]))
  }

  lemma {:induction false} InsertAdds<T>(le: (T, T) -> bool, x: T, s: seq<T>)
    ensures multiset(Insert(le, x, s)) == multiset{x} + multiset(s)
  {
    if s != [] {
      assert s == [s[0]] + s[1..];
      if !le(x, s[0]) {
        InsertAdds(le, x, s[1..]);
      }
    }
  }

  lemma SortedCons<T>(le: (T, T) -> bool, x: T, s: seq<T>)
    requires Sorted(le, s) && (s != [] ==> le(x, s[0]))
    requires forall y | y in s && le(s[0], y) :: le(x, y)
    ensures Sorted(le, [x] + s)
  {
    forall j | 0 <= j < |s| ensures le(x, s[j]) {
      assert j != 0 ==> le(s[0], s[j]);
    }
  }

  lemma {:induction false} InsertKeepsSorted<T(!new)>(le: (T, T) -> bool, x: T, s: seq<T>)
    requires TotalOrder(le) && Sorted(le, s)
    ensures Sorted(le, Insert(le, x, s))
  {
    if s != [] {
      if le(x, s[0]) {
        SortedCons(le, x, s);
      } else {
        InsertKeepsSorted(le, x, s[1..]);
        var rest := Insert(le, x, s[1..]);
        assert rest[0] == x || rest[0] == s[1];
        SortedCons(le, s[0], rest);
      }
    }
  }

  lemma {:induction false} SortSorts<T(!new)>(le: (T, T) -> bool, s: seq<T>)
    requires TotalOrder(le)
    ensures Sorted(le, Sort(le, s)) && multiset(Sort(le, s)) == multiset(s)
  {
    if s != [] {
      SortSorts(le, s[1..]);
      InsertKeepsSorted(le, s[0], Sort(le, s[1..]));
      InsertAdds(le, s[0], Sort(le, s[1..]));
      assert s == [s[0]] + s[1..];
    }
  }

  lemma TailHasTheRest<T>(s: seq<T>)
    requires s != []
    ensures multiset(s[1..]) == multiset(s) - multiset{s[0]}
  {
    assert s == [s[0]] + s[1..];
  }

  lemma SameLeast<T(!new)>(le: (T, T) -> bool, a: seq<T>, b: seq<T>)
    requires TotalOrder(le) && Sorted(le, a) && Sorted(le, b) && a != [] && b != []
    requires a[0] in b && b[0] in a
    ensures a[0] == b[0]
  {
    var i :| 0 <= i < |b| && b[i] == a[0];
    var j :| 0 <= j < |a| && a[j] == b[0];
  }

  lemma HeadsAgree<T(!new)>(le: (T, T) -> bool, a: seq<T>, b: seq<T>)
    requires TotalOrder(le) && Sorted(le, a) && Sorted(le, b) && multiset(a) == multiset(b) && a != []
    ensures b != [] && a[0] == b[0]
  {
    assert a[0] in multiset(b);
    assert b != [];
    assert b[0] in multiset(a);
    SameLeast(le, a, b);
  }

  lemma TailsPermute<T>(a: seq<T>, b: seq<T>, i: nat)
    requires i < |a| == |b| && multiset(a[i..]) == multiset(b[i..]) && a[i] == b[i]
    ensures multiset(a[i + 1..]) == multiset(b[i + 1..])
  {
    TailHasTheRest(a[i..]);
    TailHasTheRest(b[i..]);
    assert a[i..][1..] == a[i + 1..] && b[i..][1..] == b[i + 1..];
  }

  lemma TailsAreSorted<T>(le: (T, T) -> bool, s: seq<T>, i: nat)
    requires i <= |s| && Sorted(le, s)
    ensures Sorted(le, s[i..])
  {
  }

  lemma TailHeadsAgree<T(!new)>(le: (T, T) -> bool, a: seq<T>, b: seq<T>, i: nat)
    requires TotalOrder(le) && Sorted(le, a) && Sorted(le, b)
    requires i < |a| == |b| && multiset(a[i..]) == multiset(b[i..])
    ensures a[i] == b[i]
  {
    TailsAreSorted(le, a, i);
    TailsAreSorted(le, b, i);
    HeadsAgree(le, a[i..], b[i..]);
  }

  /** Two sorted sequences with the same elements are the same sequence. */
  lemma SortedPermutationIsUnique<T(!new)>(le: (T, T) -> bool, a: seq<T>, b: seq<T>)
    requires TotalOrder(le) && Sorted(le, a) && Sorted(le, b) && multiset(a) == multiset(b)
    ensures a == b
  {
    assert |a| == |multiset(a)| == |b|;
    assert a[0..] == a && b[0..] == b;
    for i := 0 to |a|
      invariant multiset(a[i..]) == multiset(b[i..])
      invariant forall k | 0 <= k < i :: a[k] == b[k]
    {
      TailHeadsAgree(le, a, b, i);
      TailsPermute(a, b, i);
    }
  }

  lemma SortIgnoresOrder<T(!new)>(le: (T, T) -> bool, a: seq<T>, b: seq<T>)
    requires TotalOrder(le) && multiset(a) == multiset(b)
    ensures Sort(le, a) == Sort(le, b)
  {
    SortSorts(le, a);
    SortSorts(le, b);
    SortedPermutationIsUnique(le, Sort(le, a), Sort(le, b));
  }

  /** Two equal entries show in the multiset, and the multiset shows two equal entries. */
  lemma OccursTwice<T>(s: seq<T>, i: nat, j: nat)
    requires i < j < |s| && s[i] == s[j]
    ensures multiset(s)[s[i]] >= 2
  {
    assert s == s[..j] + [s[j]] + s[j + 1..];
    assert s[i] == s[..j][i];
    assert s[i] in multiset(s[..j]);
  }

  lemma TwoOccurrences<T>(s: seq<T>, x: T) returns (i: nat, j: nat)
    requires multiset(s)[x] >= 2
    ensures i < j < |s| && s[i] == s[j] == x
  {
    i :| i < |s| && s[i] == x;
    assert s == s[..i] + [x] + s[i + 1..];
    if x in multiset(s[..i]) {
      j := i;
      i :| i < j && s[..j][i] == x;
    } else {
      assert x in multiset(s[i + 1..]);
      var k :| 0 <= k < |s[i + 1..]| && s[i + 1..][k] == x;
      j := i + 1 + k;
    }
  }

  /** Strict lexicographic order of texts, code point by code point: `str`'s `Ord`. */
  predicate TextLess(a: string, b: string) {
    b != [] && (a == [] || a[0] < b[0] || (a[0] == b[0] && TextLess(a[1..], b[1..])))
  }

  predicate TextLe(a: string, b: string) {
    a == b || TextLess(a, b)
  }

  lemma {:induction false} TextLessIsTransitive(a: string, b: string, c: string)
    requires TextLess(a, b) && TextLess(b, c)
    ensures TextLess(a, c)
  {
    if a != [] && a[0] == b[0] == c[0] {
      TextLessIsTransitive(a[1..], b[1..], c[1..]);
    }
  }

  lemma {:induction false} TextLessIsStrict(a: string, b: string)
    ensures !(TextLess(a, b) && TextLess(b, a))
    ensures TextLess(a, b) ==> a != b
    ensures TextLess(a, b) || TextLess(b, a) || a == b
  {
    if a != [] && b != [] && a[0] == b[0] {
      TextLessIsStrict(a[1..], b[1..]);
      assert a == [a[0]] + a[1..] && b == [b[0]] + b[1..];
    }
  }

  lemma TextLeIsTotal()
    ensures TotalOrder(TextLe)
  {
    forall a, b ensures TextLe(a, b) || TextLe(b, a) { TextLessIsStrict(a, b); }
    forall a, b | TextLe(a, b) && TextLe(b, a) ensures a == b { TextLessIsStrict(a, b); }
    forall a, b, c | TextLe(a, b) && TextLe(b, c) ensures TextLe(a, c) {
      if a != b && b != c { TextLessIsTransitive(a, b, c); }
    }
  }

  /** A common prefix does not affect the order. */
  lemma {:induction false} TextLessAfterPrefix(p: string, a: string, b: string)
    ensures TextLess(p + a, p + b) <==> TextLess(a, b)
  {
    if p == [] {
      assert p + a == a && p + b == b;
    } else {
      assert (p + a)[1..] == p[1..] + a && (p + b)[1..] == p[1..] + b;
      TextLessAfterPrefix(p[1..], a, b);
    }
  }

  /** Between texts of one length the first difference decides, whatever follows. */
  lemma {:induction false} TextLessBeforeSuffix(a: string, b: string, s: string, t: string)
    requires |a| == |b| && TextLess(a, b)
    ensures TextLess(a + s, b + t)
  {
    assert (a + s)[0] == a[0] && (b + t)[0] == b[0];
    if a[0] == b[0] {
      assert (a + s)[1..] == a[1..] + s && (b + t)[1..] == b[1..] + t;
      TextLessBeforeSuffix(a[1..], b[1..], s, t);
    }
  }
}

/** Nearest-rank percentiles of timing samples (crates/ward-bench/src/stats.rs). Durations are whole
    nanoseconds and ranks are computed over the reals. */
module Percentiles {
  import opened Wrappers
  import opened Ordering

  type Duration = nat

  predicate DurationLe(a: Duration, b: Duration) {
    a <= b
  }

  function Ceiling(x: real): int {
    -((-x).Floor)
  }

  /** `((q * n).ceil() as usize).saturating_sub(1).min(n - 1)` */
  function Rank(q: real, n: nat): (r: nat)
    requires n > 0
    ensures r < n
  {
    var k := Ceiling(q * n as real);
    var index := if k <= 1 then 0 else k - 1;
    if index < n - 1 then index else n - 1
  }

  function NearestRank(durations: seq<Duration>, q: real): Option<Duration> {
    if durations == [] then None else
    SortedSamples(durations);
    Some(Sort(DurationLe, durations)[Rank(q, |durations|)])
  }

  method Percentile(durations: seq<Duration>, q: real) returns (r: Option<Duration>)
    ensures r == NearestRank(durations, q)
    ensures r.None? <==> durations == []
    ensures r.Some? ==> r.value in durations
    ensures r.Some? && 0.0 < q <= 1.0 ==> IsNearestRank(durations, q, r.value)
  {
    if durations == [] {
      return None;
    }
    SortedSamples(durations);
    var sorted := Sort(DurationLe, durations);
    r := Some(sorted[Rank(q, |sorted|)]);
    NearestRankExactlyWhen(durations, q);
  }

  lemma DurationLeIsTotal()
    ensures TotalOrder(DurationLe)
  {
  }

  predicate Ascending(s: seq<Duration>) {
    forall i, j | 0 <= i <= j < |s| :: s[i] <= s[j]
  }

  lemma SortedSamples(durations: seq<Duration>)
    ensures var sorted := Sort(DurationLe, durations);
            && |sorted| == |durations|
            && Ascending(sorted)
            && forall i | 0 <= i < |sorted| :: sorted[i] in durations
  {
    DurationLeIsTotal();
    SortSorts(DurationLe, durations);
    var sorted := Sort(DurationLe, durations);
    assert |sorted| == |multiset(durations)|;
    forall i, j | 0 <= i <= j < |sorted| ensures sorted[i] <= sorted[j] {
      assert i < j ==> DurationLe(sorted[i], sorted[j]);
    }
    forall i | 0 <= i < |sorted| ensures sorted[i] in durations {
      assert sorted[i] in multiset(durations);
    }
  }

  // -------------------------------------------------------------------------------------------
  // What a percentile is

  /** How many samples do not exceed `bound`. */
  function UpTo(s: seq<Duration>, bound: int): nat {
    if s == [] then 0 else (if s[0] <= bound then 1 else 0) + UpTo(s[1..], bound)
  }

  function AtOrBelow(s: seq<Duration>, v: Duration): nat {
    UpTo(s, v)
  }

  function Below(s: seq<Duration>, v: Duration): nat {
    UpTo(s, v as int - 1)
  }

  /** At least the q-th part of the samples lies at or below `v`, and less than that below it. */
  predicate IsNearestRank(s: seq<Duration>, q: real, v: Duration) {
    var k := Ceiling(q * |s| as real);
    v in s && AtOrBelow(s, v) >= k && Below(s, v) < k
  }

  lemma {:induction false} UpToConcat(a: seq<Duration>, b: seq<Duration>, bound: int)
    ensures UpTo(a + b, bound) == UpTo(a, bound) + UpTo(b, bound)
  {
    if a == [] {
      assert a + b == b;
    } else {
      assert (a + b)[1..] == a[1..] + b;
      UpToConcat(a[1..], b, bound);
    }
  }

  lemma {:induction false} UpToAll(s: seq<Duration>, bound: int)
    ensures UpTo(s, bound) <= |s|
    ensures (forall i | 0 <= i < |s| :: s[i] <= bound) ==> UpTo(s, bound) == |s|
    ensures (forall i | 0 <= i < |s| :: s[i] > bound) ==> UpTo(s, bound) == 0
  {
    if s != [] {
      UpToAll(s[1..], bound);
    }
  }

  lemma {:induction false} UpToInsert(x: Duration, s: seq<Duration>, bound: int)
    ensures UpTo(Insert(DurationLe, x, s), bound) == UpTo([x] + s, bound)
  {
    assert ([x] + s)[1..] == s;
    if s != [] && !DurationLe(x, s[0]) {
      var rest := Insert(DurationLe, x, s[1..]);
      UpToInsert(x, s[1..], bound);
      assert ([x] + s[1..])[1..] == s[1..] && ([s[0]] + rest)[1..] == rest;
    }
  }

  lemma {:induction false} UpToSort(s: seq<Duration>, bound: int)
    ensures UpTo(Sort(DurationLe, s), bound) == UpTo(s, bound)
  {
    if s != [] {
      UpToSort(s[1..], bound);
      var rest := Sort(DurationLe, s[1..]);
      UpToInsert(s[0], rest, bound);
      assert ([s[0]] + rest)[1..] == rest;
    }
  }

  /** In a sorted list the entry at index r has more than r entries at or below it and at most r
      entries below it. */
  lemma SortedCounts(s: seq<Duration>, r: nat)
    requires Ascending(s) && r < |s|
    ensures AtOrBelow(s, s[r]) >= r + 1 && Below(s, s[r]) <= r
  {
    UpToSplit(s, r + 1, s[r]);
    UpToAll(s[..r + 1], s[r]);
    UpToSplit(s, r, s[r] as int - 1);
    UpToAll(s[..r], s[r] as int - 1);
    UpToAll(s[r..], s[r] as int - 1);
  }

  lemma UpToSplit(s: seq<Duration>, i: nat, bound: int)
    requires i <= |s|
    ensures UpTo(s, bound) == UpTo(s[..i], bound) + UpTo(s[i..], bound)
  {
    assert s == s[..i] + s[i..];
    UpToConcat(s[..i], s[i..], bound);
  }

  lemma CeilingIsMonotone(x: real, y: real)
    requires x <= y
    ensures Ceiling(x) <= Ceiling(y)
  {
  }

  lemma CeilingBounds(q: real, n: nat)
    requires n > 0
    ensures Ceiling(q * n as real) > 0 <==> q > 0.0
    ensures Ceiling(q * n as real) <= n <==> q <= 1.0
  {
    var x := q * n as real;
    assert q > 0.0 <==> x > 0.0;
    assert q <= 1.0 <==> x <= n as real;
  }

  lemma RankMeetsCounts(q: real, n: nat, atOrBelow: nat, below: nat)
    requires n > 0 && Rank(q, n) + 1 <= atOrBelow <= n && below <= Rank(q, n)
    ensures atOrBelow >= Ceiling(q * n as real) && below < Ceiling(q * n as real) <==> 0.0 < q <= 1.0
  {
    CeilingBounds(q, n);
  }

  lemma RankedSample(durations: seq<Duration>, r: nat) returns (v: Duration)
    requires r < |durations|
    ensures |Sort(DurationLe, durations)| == |durations| && v == Sort(DurationLe, durations)[r] && v in durations
    ensures r + 1 <= AtOrBelow(durations, v) <= |durations| && Below(durations, v) <= r
  {
    SortedSamples(durations);
    v := Sort(DurationLe, durations)[r];
    SortedCounts(Sort(DurationLe, durations), r);
    UpToSort(durations, v);
    UpToSort(durations, v as int - 1);
    UpToAll(durations, v);
  }

  lemma NearestSample(durations: seq<Duration>, q: real) returns (v: Duration)
    requires durations != []
    ensures NearestRank(durations, q) == Some(v) && v in durations
    ensures Rank(q, |durations|) + 1 <= AtOrBelow(durations, v) <= |durations|
    ensures Below(durations, v) <= Rank(q, |durations|)
  {
    v := RankedSample(durations, Rank(q, |durations|));
  }

  /** The result is the nearest-rank percentile exactly for 0 < q <= 1; at q = 0 nothing can have
      fewer than zero samples below it. */
  lemma NearestRankExactlyWhen(durations: seq<Duration>, q: real)
    requires durations != []
    ensures NearestRank(durations, q).value in durations
    ensures IsNearestRank(durations, q, NearestRank(durations, q).value) <==> 0.0 < q <= 1.0
  {
    var v := NearestSample(durations, q);
    RankMeetsCounts(q, |durations|, AtOrBelow(durations, v), Below(durations, v));
  }

  // -------------------------------------------------------------------------------------------
  // Laws

  lemma PercentileIgnoresOrder(a: seq<Duration>, b: seq<Duration>, q: real)
    requires multiset(a) == multiset(b)
    ensures NearestRank(a, q) == NearestRank(b, q)
  {
    assert |a| == |multiset(a)| && |b| == |multiset(b)|;
    DurationLeIsTotal();
    SortIgnoresOrder(DurationLe, a, b);
  }

  lemma RankIsMonotone(p: real, q: real, n: nat)
    requires n > 0 && p <= q
    ensures Rank(p, n) <= Rank(q, n)
  {
    assert p * n as real <= q * n as real;
    CeilingIsMonotone(p * n as real, q * n as real);
  }

  lemma PercentileIsMonotone(durations: seq<Duration>, p: real, q: real)
    requires durations != [] && p <= q
    ensures NearestRank(durations, p).value <= NearestRank(durations, q).value
  {
    SortedSamples(durations);
    RankIsMonotone(p, q, |durations|);
  }

  function Least(s: seq<Duration>): Duration
    requires s != []
  {
    if |s| == 1 || s[0] <= Least(s[1..]) then s[0] else Least(s[1..])
  }

  function Greatest(s: seq<Duration>): Duration
    requires s != []
  {
    if |s| == 1 || s[0] >= Greatest(s[1..]) then s[0] else Greatest(s[1..])
  }

  lemma {:induction false} ExtremesBound(s: seq<Duration>, v: Duration)
    requires v in s
    ensures Least(s) <= v <= Greatest(s)
  {
    if |s| > 1 && v in s[1..] {
      ExtremesBound(s[1..], v);
    } else {
      assert v == s[0];
    }
  }

  lemma {:induction false} ExtremesAreSamples(s: seq<Duration>)
    requires s != []
    ensures Least(s) in s && Greatest(s) in s
  {
    if |s| > 1 {
      ExtremesAreSamples(s[1..]);
    }
  }

  /** The four numbers a report shows are samples and in order. */
  lemma ReportedFiguresAreOrdered(durations: seq<Duration>)
    requires durations != []
    ensures var p50, p99 := NearestRank(durations, 0.50).value, NearestRank(durations, 0.99).value;
            && Least(durations) in durations && p50 in durations && p99 in durations && Greatest(durations) in durations
            && Least(durations) <= p50 <= p99 <= Greatest(durations)
  {
    ExtremesAreSamples(durations);
    PercentileIsMonotone(durations, 0.50, 0.99);
    NearestRankExactlyWhen(durations, 0.50);
    NearestRankExactlyWhen(durations, 0.99);
    ExtremesBound(durations, NearestRank(durations, 0.50).value);
    ExtremesBound(durations, NearestRank(durations, 0.99).value);
  }
}

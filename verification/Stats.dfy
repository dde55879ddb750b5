/** Sample statistics.  Durations are exact milliseconds; `f64::round` rounds halves away
    from zero. */
module Stats {
  import opened Options

  function Round(x: real): int {
    if x >= 0.0 then (x + 0.5).Floor else -(-x + 0.5).Floor
  }

  /** Two decimals. */
  function R2(v: real): real {
    Round(v * 100.0) as real / 100.0
  }

  lemma RoundMonotonic(x: real, y: real)
    requires x <= y
    ensures Round(x) <= Round(y)
  {}

  lemma R2Monotonic(x: real, y: real)
    requires x <= y
    ensures R2(x) <= R2(y)
  {
    RoundMonotonic(x * 100.0, y * 100.0);
  }

  /** x is k hundredths. */
  ghost predicate Hundredths(x: real, k: int) {
    x * 100.0 == k as real
  }

  /** `r2` gives a whole number of hundredths, the nearest one; a tie moves away from zero. */
  lemma R2IsNearest(v: real)
    ensures exists k :: Hundredths(R2(v), k)
    ensures v >= 0.0 ==> v - 0.005 < R2(v) <= v + 0.005
    ensures v < 0.0 ==> v - 0.005 <= R2(v) < v + 0.005
  {
    assert Hundredths(R2(v), Round(v * 100.0));
  }

  function MapR2(s: seq<real>): (r: seq<real>)
    ensures |r| == |s| && forall i | 0 <= i < |s| :: r[i] == R2(s[i])
  {
    if s == [] then [] else [R2(s[0])] + MapR2(s[1..])
  }

  // ----- sorting -----

  predicate Sorted(s: seq<real>) {
    forall i, j | 0 <= i < j < |s| :: s[i] <= s[j]
  }

  function Insert(x: real, s: seq<real>): (r: seq<real>)
    ensures multiset(r) == multiset(s) + multiset{x} && |r| == |s| + 1
  {
    if s == [] || x <= s[0] then [x] + s
    else
      assert s == [s[0]] + s[1..];
      [s[0]] + Insert(x, s[1..])
  }

  lemma {:induction false} InsertSorted(x: real, s: seq<real>)
    requires Sorted(s)
    ensures Sorted(Insert(x, s))
  {
    hide Insert;
    if s == [] || x <= s[0] {
      InsertFront(x, s);
    } else {
      InsertSorted(x, s[1..]);
      InsertBehind(x, s);
      InsertedFrom(x, s[1..], s[0]);
    }
  }

  /** A lower bound of the elements bounds the result. */
  lemma InsertedFrom(x: real, s: seq<real>, lo: real)
    requires lo <= x && forall i | 0 <= i < |s| :: lo <= s[i]
    ensures forall i | 0 <= i < |Insert(x, s)| :: lo <= Insert(x, s)[i]
  {
    hide Insert;
    var r := Insert(x, s);
    forall i | 0 <= i < |r| ensures lo <= r[i] {
      assert r[i] in multiset(r);
      assert r[i] in multiset(s) || r[i] == x;
    }
  }

  /** `sort_by(f64::total_cmp)`, as a function of the vector's contents. */
  function Sort(s: seq<real>): (r: seq<real>)
    ensures Sorted(r) && multiset(r) == multiset(s) && |r| == |s|
  {
    if s == [] then []
    else
      var rest := Sort(s[1..]);
      InsertRest(s, rest);
      Insert(s[0], rest)
  }

  lemma InsertRest(s: seq<real>, rest: seq<real>)
    requires s != [] && Sorted(rest) && multiset(rest) == multiset(s[1..])
    ensures Sorted(Insert(s[0], rest)) && multiset(Insert(s[0], rest)) == multiset(s)
  {
    InsertSorted(s[0], rest);
    assert s == [s[0]] + s[1..];
  }

  /** Rounding commutes with insertion; a tie created by rounding changes nothing. */
  lemma {:induction false} InsertRounded(x: real, s: seq<real>)
    requires Sorted(s)
    ensures Sorted(MapR2(s)) && MapR2(Insert(x, s)) == Insert(R2(x), MapR2(s))
  {
    hide R2, Insert;
    SortedRounded(s);
    if s == [] {
      InsertFront(x, s);
      InsertFront(R2(x), MapR2(s));
    } else if x <= s[0] {
      R2Monotonic(x, s[0]);
      InsertFront(x, s);
      InsertFront(R2(x), MapR2(s));
    } else {
      R2Monotonic(s[0], x);
      InsertRounded(x, s[1..]);
      InsertBehind(x, s);
      InsertBehindEqual(R2(x), MapR2(s));
    }
  }

  lemma InsertFront(x: real, s: seq<real>)
    requires (s == [] || x <= s[0])
    ensures Insert(x, s) == [x] + s && MapR2([x] + s) == [R2(x)] + MapR2(s)
  {}

  lemma InsertBehind(x: real, s: seq<real>)
    requires s != [] && x > s[0]
    ensures Insert(x, s) == [s[0]] + Insert(x, s[1..])
    ensures MapR2(Insert(x, s)) == [R2(s[0])] + MapR2(Insert(x, s[1..]))
  {}

  lemma InsertBehindEqual(x: real, s: seq<real>)
    requires Sorted(s) && s != [] && x >= s[0]
    ensures Insert(x, s) == [s[0]] + Insert(x, s[1..])
  {}

  lemma SortedRounded(s: seq<real>)
    requires Sorted(s)
    ensures Sorted(MapR2(s))
  {
    var r := MapR2(s);
    forall i, j | 0 <= i < j < |r| ensures r[i] <= r[j] {
      R2Monotonic(s[i], s[j]);
    }
  }

  /** The two pipelines agree: rounding and then sorting is sorting and then rounding. */
  lemma {:induction false} RoundThenSort(s: seq<real>)
    ensures Sort(MapR2(s)) == MapR2(Sort(s))
  {
    if s == [] {
    } else {
      RoundThenSort(s[1..]);
      InsertRounded(s[0], Sort(s[1..]));
      assert MapR2(s)[1..] == MapR2(s[1..]);
    }
  }

  /** There is only one sorted arrangement. */
  lemma {:induction false} SortedIsUnique(a: seq<real>, b: seq<real>)
    requires Sorted(a) && Sorted(b) && multiset(a) == multiset(b)
    ensures a == b
  {
    assert |a| == |multiset(a)| == |multiset(b)| == |b|;
    if a == [] {
    } else {
      FirstIsLeast(a, b);
      FirstIsLeast(b, a);
      WithoutFirst(a);
      WithoutFirst(b);
      SortedIsUnique(a[1..], b[1..]);
      assert a == [a[0]] + a[1..] && b == [b[0]] + b[1..];
    }
  }

  lemma FirstIsLeast(a: seq<real>, b: seq<real>)
    requires Sorted(a) && a != [] && b != [] && multiset(a) == multiset(b)
    ensures a[0] <= b[0]
  {
    assert b[0] in multiset(b);
    var i :| 0 <= i < |a| && a[i] == b[0];
  }

  lemma WithoutFirst(s: seq<real>)
    requires s != []
    ensures multiset(s[1..]) == multiset(s) - multiset{s[0]}
  {
    assert s == [s[0]] + s[1..];
  }

  // ----- the statistics -----

  datatype SampleStats = SampleStats(
    mean: real, min: real, p25: real, median: real, p75: real, p90: real, p95: real, p99: real, max: real)

  function PercentileIndex(len: nat, p: nat): (i: nat)
    requires len > 0
    ensures i < len
  {
    var idx := Round(p as real / 100.0 * (len - 1) as real);
    if idx <= len - 1 then (if idx < 0 then 0 else idx) else len - 1
  }

  /** The index is the nearest rank to p percent of the last index; a tie moves up. */
  lemma PercentileIndexIsNearest(len: nat, p: nat)
    requires len > 0 && p <= 100
    ensures p * (len - 1) - 50 < 100 * PercentileIndex(len, p) <= p * (len - 1) + 50
  {
    var x := p as real / 100.0 * (len - 1) as real;
    assert 100.0 * x == (p * (len - 1)) as real by {
      assert p as real * (len - 1) as real == (p * (len - 1)) as real;
    }
    assert p * (len - 1) <= 100 * (len - 1);
  }

  function Percentile(sorted: seq<real>, p: nat): real
    requires |sorted| > 0
  {
    sorted[PercentileIndex(|sorted|, p)]
  }

  lemma PercentileIndexMonotonic(len: nat, p: nat, q: nat)
    requires len > 0 && p <= q
    ensures PercentileIndex(len, p) <= PercentileIndex(len, q)
  {
    var n := (len - 1) as real;
    ScaleUp(p as real / 100.0, q as real / 100.0, n);
    RoundMonotonic(p as real / 100.0 * n, q as real / 100.0 * n);
  }

  lemma ScaleUp(a: real, b: real, n: real)
    requires a <= b && n >= 0.0
    ensures a * n <= b * n
  {}

  lemma PercentilesOrdered(s: seq<real>)
    requires s != [] && Sorted(s)
    ensures s[0] <= Percentile(s, 25) <= Percentile(s, 50) <= Percentile(s, 75)
         <= Percentile(s, 90) <= Percentile(s, 95) <= Percentile(s, 99) <= s[|s| - 1]
  {
    hide PercentileIndex;
    PercentileIndexMonotonic(|s|, 25, 50);
    PercentileIndexMonotonic(|s|, 50, 75);
    PercentileIndexMonotonic(|s|, 75, 90);
    PercentileIndexMonotonic(|s|, 90, 95);
    PercentileIndexMonotonic(|s|, 95, 99);
  }

  function Sum(s: seq<real>): real {
    if s == [] then 0.0 else s[0] + Sum(s[1..])
  }

  /** `SampleStats::from_durations`; an empty sample is the failed assertion. */
  function FromDurations(samples: seq<real>): Option<SampleStats> {
    if samples == [] then None
    else
      var ms := Sort(samples);
      Some(SampleStats(
             R2(Sum(ms) / |ms| as real), R2(ms[0]),
             R2(Percentile(ms, 25)), R2(Percentile(ms, 50)), R2(Percentile(ms, 75)),
             R2(Percentile(ms, 90)), R2(Percentile(ms, 95)), R2(Percentile(ms, 99)),
             R2(ms[|ms| - 1])))
  }

  /** The runner's own list of samples: rounded, then sorted. */
  function SamplesMs(samples: seq<real>): seq<real> {
    Sort(MapR2(samples))
  }

  lemma OneMore(n: real, x: real)
    ensures (n + 1.0) * x == n * x + x
  {}

  lemma {:induction false} SumBounds(s: seq<real>, lo: real, hi: real)
    requires forall i | 0 <= i < |s| :: lo <= s[i] <= hi
    ensures |s| as real * lo <= Sum(s) <= |s| as real * hi
  {
    if s == [] {
    } else {
      SumBounds(s[1..], lo, hi);
      OneMore(|s[1..]| as real, lo);
      OneMore(|s[1..]| as real, hi);
    }
  }

  /** x is the entry of the sorted list at the nearest rank to p percent of its last index; a
      tie moves up. */
  ghost predicate NearestRank(sorted: seq<real>, p: nat, x: real) {
    exists i: nat | i < |sorted| ::
      p * (|sorted| - 1) - 50 < 100 * i <= p * (|sorted| - 1) + 50 && x == sorted[i]
  }

  /** There is exactly one such entry, and `percentile` picks it. */
  lemma PercentileIsNearestRank(sorted: seq<real>, p: nat, x: real)
    requires sorted != [] && p <= 100
    ensures NearestRank(sorted, p, x) <==> x == Percentile(sorted, p)
  {
    hide PercentileIndex;
    PercentileIndexIsNearest(|sorted|, p);
    if NearestRank(sorted, p, x) {
      var i: nat :| i < |sorted| && p * (|sorted| - 1) - 50 < 100 * i <= p * (|sorted| - 1) + 50 && x == sorted[i];
      assert i == PercentileIndex(|sorted|, p);
    }
  }

  /** The list is the rounded durations in increasing order.  Every order statistic is the
      entry of that list at its nearest rank, in order; the mean is the sum over the count, up
      to half a hundredth, and lies between the extremes. */
  lemma StatsAreSamples(samples: seq<real>)
    requires samples != []
    ensures FromDurations(samples).Some?
    ensures Describes(FromDurations(samples).value, SamplesMs(samples), samples)
  {
    hide Sort, R2, PercentileIndex, Sum, Percentile, NearestRank, MapR2, Sorted;
    var sorted, ms := Sort(samples), SamplesMs(samples);
    var n, sum := |sorted|, Sum(sorted);
    RoundThenSort(samples);
    PercentilesOrdered(ms);
    PercentileOfRounded(sorted);
    PercentilesAreNearestRanks(ms);
    SumOfSort(samples);
    MeanIsNear(sum, n);
    MeanInside(sorted);
    R2Monotonic(sorted[0], sum / n as real);
    R2Monotonic(sum / n as real, sorted[n - 1]);
  }

  lemma PercentilesAreNearestRanks(ms: seq<real>)
    requires ms != []
    ensures NearestRank(ms, 25, Percentile(ms, 25)) && NearestRank(ms, 50, Percentile(ms, 50))
    ensures NearestRank(ms, 75, Percentile(ms, 75)) && NearestRank(ms, 90, Percentile(ms, 90))
    ensures NearestRank(ms, 95, Percentile(ms, 95)) && NearestRank(ms, 99, Percentile(ms, 99))
  {
    hide Percentile, NearestRank;
    PercentileIsNearestRank(ms, 25, Percentile(ms, 25));
    PercentileIsNearestRank(ms, 50, Percentile(ms, 50));
    PercentileIsNearestRank(ms, 75, Percentile(ms, 75));
    PercentileIsNearestRank(ms, 90, Percentile(ms, 90));
    PercentileIsNearestRank(ms, 95, Percentile(ms, 95));
    PercentileIsNearestRank(ms, 99, Percentile(ms, 99));
  }

  ghost predicate Describes(st: SampleStats, ms: seq<real>, samples: seq<real>) {
    && |ms| == |samples| > 0
    && Sorted(ms) && multiset(ms) == multiset(MapR2(samples))
    && st.min == ms[0] && st.max == ms[|ms| - 1]
    && NearestRank(ms, 25, st.p25) && NearestRank(ms, 50, st.median) && NearestRank(ms, 75, st.p75)
    && NearestRank(ms, 90, st.p90) && NearestRank(ms, 95, st.p95) && NearestRank(ms, 99, st.p99)
    && st.min <= st.p25 <= st.median <= st.p75 <= st.p90 <= st.p95 <= st.p99 <= st.max
    && st.min <= st.mean <= st.max
    && Sum(samples) - |samples| as real * 0.005 <= |samples| as real * st.mean
    && |samples| as real * st.mean <= Sum(samples) + |samples| as real * 0.005
  }

  /** That description leaves one list and one value for every order statistic. */
  lemma DescribedOnce(st: SampleStats, ms: seq<real>, st': SampleStats, ms': seq<real>, samples: seq<real>)
    requires Describes(st, ms, samples) && Describes(st', ms', samples)
    ensures ms == ms' && st.(mean := st'.mean) == st'
  {
    hide NearestRank, Percentile, Sorted, MapR2, Sum;
    SortedIsUnique(ms, ms');
    PercentileIsNearestRank(ms, 25, st.p25);
    PercentileIsNearestRank(ms, 25, st'.p25);
    PercentileIsNearestRank(ms, 50, st.median);
    PercentileIsNearestRank(ms, 50, st'.median);
    PercentileIsNearestRank(ms, 75, st.p75);
    PercentileIsNearestRank(ms, 75, st'.p75);
    PercentileIsNearestRank(ms, 90, st.p90);
    PercentileIsNearestRank(ms, 90, st'.p90);
    PercentileIsNearestRank(ms, 95, st.p95);
    PercentileIsNearestRank(ms, 95, st'.p95);
    PercentileIsNearestRank(ms, 99, st.p99);
    PercentileIsNearestRank(ms, 99, st'.p99);
  }

  lemma PercentileOfRounded(sorted: seq<real>)
    requires sorted != []
    ensures forall p: nat :: Percentile(MapR2(sorted), p) == R2(Percentile(sorted, p))
  {
    hide R2, PercentileIndex;
  }

  lemma MeanIsNear(sum: real, n: nat)
    requires n > 0
    ensures sum - n as real * 0.005 <= n as real * R2(sum / n as real) <= sum + n as real * 0.005
  {
    hide R2;
    var m := sum / n as real;
    R2IsNearest(m);
    ScaleUp(m - 0.005, R2(m), n as real);
    ScaleUp(R2(m), m + 0.005, n as real);
    TimesCount(m, n as real);
    assert n as real * m == sum;
  }

  lemma TimesCount(m: real, n: real)
    ensures n * (m - 0.005) == n * m - n * 0.005 && n * (m + 0.005) == n * m + n * 0.005
  {}

  /** Sorting only moves the terms of the sum. */
  lemma {:induction false} SumOfInsert(x: real, s: seq<real>)
    ensures Sum(Insert(x, s)) == x + Sum(s)
  {
    if s == [] || x <= s[0] {
      InsertFront(x, s);
      assert ([x] + s)[1..] == s;
    } else {
      InsertBehind(x, s);
      SumOfInsert(x, s[1..]);
      assert Insert(x, s)[1..] == Insert(x, s[1..]);
    }
  }

  lemma {:induction false} SumOfSort(s: seq<real>)
    ensures Sum(Sort(s)) == Sum(s)
  {
    if s == [] {
    } else {
      SumOfSort(s[1..]);
      SumOfInsert(s[0], Sort(s[1..]));
    }
  }

  lemma MeanInside(s: seq<real>)
    requires s != [] && Sorted(s)
    ensures s[0] <= Sum(s) / |s| as real <= s[|s| - 1]
  {
    SumBounds(s, s[0], s[|s| - 1]);
    DivideBounds(Sum(s), |s| as real, s[0], s[|s| - 1]);
  }

  lemma DivideBounds(sum: real, n: real, lo: real, hi: real)
    requires n > 0.0 && n * lo <= sum <= n * hi
    ensures lo <= sum / n <= hi
  {}

  /** Samples and statistics depend only on the multiset of durations. */
  lemma StatsIgnoreOrder(a: seq<real>, b: seq<real>)
    requires multiset(a) == multiset(b)
    ensures SamplesMs(a) == SamplesMs(b) && FromDurations(a) == FromDurations(b)
  {
    hide R2, Round, Percentile;
    SortedIsUnique(Sort(a), Sort(b));
    RoundThenSort(a);
    RoundThenSort(b);
  }
}

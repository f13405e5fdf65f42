/** compute_percentiles and percentile of src/stats.rs, whose index is computed
    in doubles, and the interpolating percentile of plot.py. Percents are in
    tenths: 999 is 99.9. `fl` is the machine's rounding of reals to doubles. */
module Percentile {
  import opened Bytes
  import opened F64
  import opened RankF64
  import opened Sequences

  function Value(x: u64): int {
    x
  }

  ghost predicate Sorted(v: seq<u64>) {
    SortedBy(v, Value)
  }

  /** The index `percentile` looks at, computed in doubles. */
  function Index(fl: real -> real, n: nat, p: nat): nat
    requires n > 0
  {
    var idx := SaturatingSub(Ceil(Rank(fl, n, p)), 1);
    if idx < n - 1 then idx else n - 1
  }

  function Percentile(fl: real -> real, sorted: seq<u64>, p: nat): (r: u64)
    ensures sorted == [] ==> r == 0
  {
    if sorted == [] then 0 else sorted[Index(fl, |sorted|, p)]
  }

  datatype Percentiles = Percentiles(p50: u64, p90: u64, p95: u64, p99: u64, p99_9: u64, max: u64, min: u64,
                                     mean: u64)

  const NO_SAMPLES: Percentiles := Percentiles(0, 0, 0, 0, 0, 0, 0, 0)

  // ---- The samples by rank ----

  function AtMost(x: u64): u64 -> bool {
    (y: u64) => y <= x
  }

  function Below(x: u64): u64 -> bool {
    (y: u64) => y < x
  }

  /** Sorting the samples puts `x` at this index: at most `i` of them are below
      it, and more than `i` are at most it. */
  ghost predicate Nth(v: seq<u64>, i: nat, x: u64) {
    x in v && CountIf(v, Below(x)) <= i < CountIf(v, AtMost(x))
  }

  /** At least p of the samples are at most x, and less than p of them are below x. */
  ghost predicate NearestRank(v: seq<u64>, p: nat, x: u64) {
    && x in v
    && 1000 * CountIf(v, AtMost(x)) >= p * |v|
    && 1000 * CountIf(v, Below(x)) < p * |v|
  }

  lemma {:induction false} CountAll(v: seq<u64>, p: u64 -> bool)
    ensures (forall x | x in v :: p(x)) ==> CountIf(v, p) == |v|
    ensures (forall x | x in v :: !p(x)) ==> CountIf(v, p) == 0
    ensures CountIf(v, p) <= |v|
  {
    if v == [] {
    } else {
      CountAll(Front(v), p);
      assert v == Front(v) + [Last(v)];
    }
  }

  lemma CountSplit(v: seq<u64>, k: nat, p: u64 -> bool)
    requires k <= |v|
    ensures CountIf(v, p) == CountIf(v[..k], p) + CountIf(v[k..], p)
  {
    SplitInTwo(v, k);
    CountIfConcat(v[..k], v[k..], p);
  }

  lemma AtMostCount(sorted: seq<u64>, idx: nat)
    requires Sorted(sorted) && idx < |sorted|
    ensures CountIf(sorted, AtMost(sorted[idx])) >= idx + 1
  {
    var x := sorted[idx];
    CountSplit(sorted, idx + 1, AtMost(x));
    assert forall i | 0 <= i <= idx :: Value(sorted[i]) <= Value(x);
    CountAll(sorted[..idx + 1], AtMost(x));
  }

  lemma BelowCount(sorted: seq<u64>, idx: nat)
    requires Sorted(sorted) && idx < |sorted|
    ensures CountIf(sorted, Below(sorted[idx])) <= idx
  {
    var x := sorted[idx];
    CountSplit(sorted, idx, Below(x));
    CountAll(sorted[..idx], Below(x));
    assert forall i | idx <= i < |sorted| :: Value(x) <= Value(sorted[i]);
    CountAll(sorted[idx..], Below(x));
  }

  lemma SortedNth(sorted: seq<u64>, i: nat)
    requires Sorted(sorted) && i < |sorted|
    ensures Nth(sorted, i, sorted[i])
  {
    AtMostCount(sorted, i);
    BelowCount(sorted, i);
  }

  /** Ranks do not see the order of the samples. */
  lemma NthBag(v: seq<u64>, w: seq<u64>, i: nat, x: u64)
    requires multiset(v) == multiset(w) && Nth(v, i, x)
    ensures Nth(w, i, x)
  {
    CountIfBag(v, w, AtMost(x));
    CountIfBag(v, w, Below(x));
    assert x in multiset(w);
  }

  lemma NthMonotone(v: seq<u64>, i: nat, j: nat, x: u64, y: u64)
    requires i <= j && Nth(v, i, x) && Nth(v, j, y)
    ensures x <= y
  {
    if y < x { CountIfMonotone(v, AtMost(y), Below(x)); }
  }

  lemma RankBounds(n: nat, p: nat)
    requires n > 0 && 0 < p <= 1000
    ensures 0 < CeilDiv(n * p, 1000) <= n
    ensures 1000 * (CeilDiv(n * p, 1000) - 1) < p * n <= 1000 * CeilDiv(n * p, 1000)
  {
    var product := n * p;
    MulMonotone(n, p, 1000);
    MulMonotone(n, 1, p);
    assert product == p * n;
    assert 0 < product <= 1000 * n;
  }

  /** The nearest-rank value is the sample of that rank. */
  lemma NearestRankIsNth(v: seq<u64>, p: nat, x: u64)
    requires v != [] && 0 < p <= 1000
    ensures CeilDiv(|v| * p, 1000) > 0
    ensures NearestRank(v, p, x) <==> Nth(v, CeilDiv(|v| * p, 1000) - 1, x)
  {
    RankBounds(|v|, p);
  }

  /** The nearest-rank value is unique. */
  lemma NearestRankUnique(v: seq<u64>, p: nat, x: u64, y: u64)
    requires NearestRank(v, p, x) && NearestRank(v, p, y)
    ensures x == y
  {
    if x < y { CountIfMonotone(v, AtMost(x), Below(y)); }
    if y < x { CountIfMonotone(v, AtMost(y), Below(x)); }
  }

  lemma Extremes(v: seq<u64>, sorted: seq<u64>)
    requires Sorted(sorted) && sorted != [] && multiset(sorted) == multiset(v)
    ensures sorted[0] in v && Last(sorted) in v && forall x | x in v :: sorted[0] <= x <= Last(sorted)
  {
    SameElements(sorted, v);
    assert sorted[0] in sorted && Last(sorted) in sorted;
    forall x | x in v ensures sorted[0] <= x <= Last(sorted) {
      assert x in sorted;
    }
  }

  // ---- The mean ----

  function Amount(x: u64): nat {
    x
  }

  /** The sum wraps at 64 bits, as additions do in a release build. */
  function WrappingMean(v: seq<u64>): u64
    requires v != []
  {
    AsU64(SumOf(v, Amount)) / |v|
  }

  lemma WrappingAdd(a: nat, b: nat)
    ensures AsU64(AsU64(a) + b) == AsU64(a + b)
  {
    var q, r := (AsU64(a) + b) / TWO_TO_THE_64, (AsU64(a) + b) % TWO_TO_THE_64;
    assert a + b == TWO_TO_THE_64 * (a / TWO_TO_THE_64 + q) + r;
    ModUnique(a + b, TWO_TO_THE_64, a / TWO_TO_THE_64 + q, r);
  }

  method WrappingSum(v: seq<u64>) returns (sum: u64)
    ensures sum == AsU64(SumOf(v, Amount))
  {
    sum := 0;
    for i := 0 to |v|
      invariant sum == AsU64(SumOf(v[..i], Amount))
    {
      assert v[..i + 1] == v[..i] + [v[i]];
      SumOfSnoc(v[..i], v[i], Amount);
      WrappingAdd(SumOf(v[..i], Amount), v[i]);
      sum := AsU64(sum + v[i]);
    }
    assert v[..|v|] == v;
  }

  lemma MulSucc(d: nat, n: nat)
    ensures d * (n + 1) == d * n + d
  {
  }

  lemma {:induction false} SumAtLeast(v: seq<u64>, low: nat)
    requires forall x | x in v :: low <= x
    ensures low * |v| <= SumOf(v, Amount)
  {
    if v == [] {
    } else {
      assert Last(v) in v && forall x | x in Front(v) :: x in v;
      SumAtLeast(Front(v), low);
      MulSucc(low, |Front(v)|);
    }
  }

  lemma {:induction false} SumAtMost(v: seq<u64>, high: nat)
    requires forall x | x in v :: x <= high
    ensures SumOf(v, Amount) <= high * |v|
  {
    if v == [] {
    } else {
      assert Last(v) in v && forall x | x in Front(v) :: x in v;
      SumAtMost(Front(v), high);
      MulSucc(high, |Front(v)|);
    }
  }

  lemma DivBetween(n: nat, d: nat, low: nat, high: nat)
    requires d > 0 && low * d <= n <= high * d
    ensures low <= n / d <= high
  {
    if n / d < low { MulMonotone(d, n / d + 1, low); }
    if n / d > high { MulMonotone(d, high + 1, n / d); }
  }

  lemma QuotientsDiffer(n: nat, m: nat, d: nat)
    requires d > 0 && n >= m + d
    ensures n / d > m / d
  {
    if n / d <= m / d { MulMonotone(d, n / d, m / d); }
  }

  /** The mean is the floor of the exact mean precisely when the sum fits 64
      bits; then it lies between minimum and maximum. */
  lemma MeanExact(v: seq<u64>, low: u64, high: u64)
    requires v != [] && |v| < TWO_TO_THE_64 && forall x | x in v :: low <= x <= high
    ensures WrappingMean(v) == SumOf(v, Amount) / |v| <==> SumOf(v, Amount) < TWO_TO_THE_64
    ensures SumOf(v, Amount) < TWO_TO_THE_64 ==> low <= WrappingMean(v) <= high
  {
    var sum := SumOf(v, Amount);
    SumAtLeast(v, low);
    SumAtMost(v, high);
    DivBetween(sum, |v|, low, high);
    if sum >= TWO_TO_THE_64 {
      QuotientsDiffer(sum, AsU64(sum), |v|);
    }
  }

  // ---- compute_percentiles ----

  function SummaryOf(fl: real -> real, sorted: seq<u64>): Percentiles
    requires sorted != []
  {
    Percentiles(Percentile(fl, sorted, 500), Percentile(fl, sorted, 900), Percentile(fl, sorted, 950),
                Percentile(fl, sorted, 990), Percentile(fl, sorted, 999), Last(sorted), sorted[0],
                WrappingMean(sorted))
  }

  /** Each percentile is the sample of the computed rank. */
  ghost predicate Ranked(fl: real -> real, p: Percentiles, v: seq<u64>)
    requires v != []
  {
    && Nth(v, Index(fl, |v|, 500), p.p50) && Nth(v, Index(fl, |v|, 900), p.p90)
    && Nth(v, Index(fl, |v|, 950), p.p95) && Nth(v, Index(fl, |v|, 990), p.p99)
    && Nth(v, Index(fl, |v|, 999), p.p99_9)
  }

  ghost predicate Bounds(p: Percentiles, v: seq<u64>) {
    p.min in v && p.max in v && forall x | x in v :: p.min <= x <= p.max
  }

  ghost predicate Summarizes(fl: real -> real, p: Percentiles, v: seq<u64>) {
    if v == [] then p == Percentiles(0, 0, 0, 0, 0, 0, 0, 0)
    else Ranked(fl, p, v) && Bounds(p, v) && p.mean == WrappingMean(v)
  }

  lemma SameMean(v: seq<u64>, w: seq<u64>)
    requires v != [] && multiset(v) == multiset(w)
    ensures w != [] && WrappingMean(v) == WrappingMean(w)
  {
    assert |v| == |multiset(v)| == |w|;
    SumOfBag(v, w, Amount);
  }

  lemma RankedSample(fl: real -> real, v: seq<u64>, sorted: seq<u64>, p: nat)
    requires Sorted(sorted) && sorted != [] && multiset(sorted) == multiset(v)
    ensures |v| == |sorted| && Nth(v, Index(fl, |v|, p), Percentile(fl, sorted, p))
  {
    assert |v| == |multiset(v)| == |sorted|;
    SortedNth(sorted, Index(fl, |sorted|, p));
    NthBag(sorted, v, Index(fl, |sorted|, p), Percentile(fl, sorted, p));
  }

  lemma Summary(fl: real -> real, v: seq<u64>, sorted: seq<u64>)
    requires Sorted(sorted) && sorted != [] && multiset(sorted) == multiset(v)
    ensures Summarizes(fl, SummaryOf(fl, sorted), v)
  {
    hide Index, Nth;
    RankedSample(fl, v, sorted, 500);
    RankedSample(fl, v, sorted, 900);
    RankedSample(fl, v, sorted, 950);
    RankedSample(fl, v, sorted, 990);
    RankedSample(fl, v, sorted, 999);
    Extremes(v, sorted);
    SameMean(v, sorted);
  }

  /** For samples in any order, by sorting them. */
  method ComputePercentiles(fl: real -> real, v: seq<u64>) returns (p: Percentiles)
    ensures Summarizes(fl, p, v)
  {
    if v == [] {
      return NO_SAMPLES;
    }
    var sorted := SortBy(v, Value);
    assert sorted != [] by { assert |multiset(sorted)| == |multiset(v)| > 0; }
    var sum := WrappingSum(sorted);
    p := Percentiles(Percentile(fl, sorted, 500), Percentile(fl, sorted, 900), Percentile(fl, sorted, 950),
                     Percentile(fl, sorted, 990), Percentile(fl, sorted, 999), Last(sorted), sorted[0],
                     sum / |sorted|);
    Summary(fl, v, sorted);
  }

  lemma SameSample(v: seq<u64>, w: seq<u64>, i: nat, x: u64, y: u64)
    requires multiset(v) == multiset(w) && Nth(v, i, x) && Nth(w, i, y)
    ensures x == y
  {
    NthBag(w, v, i, y);
    NthMonotone(v, i, i, x, y);
    NthMonotone(v, i, i, y, x);
  }

  /** Samples that are one bag have one summary. */
  lemma SummaryUnique(fl: real -> real, v: seq<u64>, w: seq<u64>, p: Percentiles, q: Percentiles)
    requires multiset(v) == multiset(w)
    ensures Summarizes(fl, p, v) && Summarizes(fl, q, w) ==> p == q
  {
    hide Index, Nth;
    assert |v| == |multiset(v)| == |w|;
    if v != [] && Summarizes(fl, p, v) && Summarizes(fl, q, w) {
      SameMean(v, w);
      SameSample(v, w, Index(fl, |v|, 500), p.p50, q.p50);
      SameSample(v, w, Index(fl, |v|, 900), p.p90, q.p90);
      SameSample(v, w, Index(fl, |v|, 950), p.p95, q.p95);
      SameSample(v, w, Index(fl, |v|, 990), p.p99, q.p99);
      SameSample(v, w, Index(fl, |v|, 999), p.p99_9, q.p99_9);
      SameElements(v, w);
    }
  }

  lemma IndexMonotone(fl: real -> real, n: nat, p: nat, q: nat)
    requires RoundsToNearest(fl) && 0 < n <= MAX_LENGTH && p <= q <= 1000
    ensures Index(fl, n, p) <= Index(fl, n, q)
  {
    RankMonotone(fl, n, p, q);
    assert Ceil(Rank(fl, n, p)) <= Ceil(Rank(fl, n, q));
  }

  /** The percentiles ascend between minimum and maximum, for as many samples as a vector can hold. */
  lemma SummaryAscends(fl: real -> real, v: seq<u64>, p: Percentiles)
    requires RoundsToNearest(fl) && 0 < |v| <= MAX_LENGTH && Ranked(fl, p, v) && Bounds(p, v)
    ensures p.min <= p.p50 <= p.p90 <= p.p95 <= p.p99 <= p.p99_9 <= p.max
  {
    hide Index, RoundsToNearest;
    var n := |v|;
    IndexMonotone(fl, n, 500, 900);
    IndexMonotone(fl, n, 900, 950);
    IndexMonotone(fl, n, 950, 990);
    IndexMonotone(fl, n, 990, 999);
    NthMonotone(v, Index(fl, n, 500), Index(fl, n, 900), p.p50, p.p90);
    NthMonotone(v, Index(fl, n, 900), Index(fl, n, 950), p.p90, p.p95);
    NthMonotone(v, Index(fl, n, 950), Index(fl, n, 990), p.p95, p.p99);
    NthMonotone(v, Index(fl, n, 990), Index(fl, n, 999), p.p99, p.p99_9);
  }

  lemma IndexOfRank(fl: real -> real, n: nat, p: nat)
    requires n > 0 && 0 < p <= 1000 && Ceil(Rank(fl, n, p)) == CeilDiv(n * p, 1000)
    ensures Index(fl, n, p) == CeilDiv(n * p, 1000) - 1
  {
    RankBounds(n, p);
  }

  /** At a whole percent the computed rank is the nearest one. */
  lemma WholePercentile(fl: real -> real, v: seq<u64>, w: nat, x: u64)
    requires RoundsToNearest(fl) && v != [] && |v| <= RANKED && 0 < w <= 100
    ensures NearestRank(v, 10 * w, x) <==> Nth(v, Index(fl, |v|, 10 * w), x)
  {
    WholeRank(fl, |v|, w);
    IndexOfRank(fl, |v|, 10 * w);
    NearestRankIsNth(v, 10 * w, x);
  }

  lemma LastIndex(fl: real -> real, n: nat)
    requires RoundsToNearest(fl) && 0 < n <= RANKED
    ensures CeilDiv(n * 999, 1000) > 0
    ensures Index(fl, n, 999) == CeilDiv(n * 999, 1000) - if OneTooHigh(n) then 0 else 1
  {
    hide Rank, Ceil, RoundsToNearest, PowerBetween;
    LastRankExactly(fl, n);
    RankBounds(n, 999);
    if OneTooHigh(n) {
      assert n * 999 == 1000 * (n / 1000 * 999);
    }
  }

  /** Up to 2^40 samples each percentile is the nearest-rank value, save p99.9 at
      the lengths where its rank is one too high. */
  lemma SummaryRanks(fl: real -> real, v: seq<u64>, p: Percentiles)
    requires RoundsToNearest(fl) && 0 < |v| <= RANKED && Ranked(fl, p, v)
    ensures NearestRank(v, 500, p.p50) && NearestRank(v, 900, p.p90)
    ensures NearestRank(v, 950, p.p95) && NearestRank(v, 990, p.p99)
    ensures NearestRank(v, 999, p.p99_9) || (OneTooHigh(|v|) && Nth(v, |v| / 1000 * 999, p.p99_9))
  {
    hide Index, Nth, NearestRank, RoundsToNearest, PowerBetween;
    WholePercentile(fl, v, 50, p.p50);
    WholePercentile(fl, v, 90, p.p90);
    WholePercentile(fl, v, 95, p.p95);
    WholePercentile(fl, v, 99, p.p99);
    LastIndex(fl, |v|);
    NearestRankIsNth(v, 999, p.p99_9);
  }

  /** Of every 1000 of these samples 999 are 0 and one is 1. */
  function Steps(t: nat): seq<u64> {
    seq(1000 * t, i => if i < 999 * t then 0 else 1)
  }

  lemma StepsRank(t: nat)
    requires t > 0
    ensures !NearestRank(Steps(t), 999, 1)
  {
    var v := Steps(t);
    CountSplit(v, 999 * t, Below(1));
    CountAll(v[..999 * t], Below(1));
  }

  lemma StepsSummary(fl: real -> real, t: nat)
    requires RoundsToNearest(fl) && 0 < 1000 * t <= RANKED && OneTooHigh(1000 * t)
    ensures Summarizes(fl, SummaryOf(fl, Steps(t)), Steps(t))
    ensures !NearestRank(Steps(t), 999, SummaryOf(fl, Steps(t)).p99_9)
  {
    hide RoundsToNearest, PowerBetween, Index, NearestRank;
    Summary(fl, Steps(t), Steps(t));
    LastIndex(fl, 1000 * t);
    assert 1000 * t * 999 == 1000 * (999 * t);
    StepsRank(t);
  }

  /** For p99.9 this is exactly so: all samples of a length have their
      nearest-rank value reported unless the rank is one too high there. */
  lemma LastPercentileExactly(fl: real -> real, n: nat)
    requires RoundsToNearest(fl) && 0 < n <= RANKED
    ensures (forall v: seq<u64>, p | |v| == n && Summarizes(fl, p, v) :: NearestRank(v, 999, p.p99_9))
            <==> !OneTooHigh(n)
  {
    hide RoundsToNearest, PowerBetween, Index, NearestRank, Ranked, SummaryOf;
    if OneTooHigh(n) {
      StepsSummary(fl, n / 1000);
      assert |Steps(n / 1000)| == n;
    } else {
      forall v: seq<u64>, p | |v| == n && Summarizes(fl, p, v) ensures NearestRank(v, 999, p.p99_9) {
        SummaryRanks(fl, v, p);
      }
    }
  }

  // ---- plot.py's percentile ----

  /** rank = (q / 100) * (n - 1), split into its floor and the rest in thousandths. */
  function PlotLow(n: nat, p: nat): nat
    requires n > 0
  {
    (p * (n - 1)) / 1000
  }

  function PlotHigh(n: nat, p: nat): nat
    requires n > 0
  {
    if PlotLow(n, p) + 1 < n - 1 then PlotLow(n, p) + 1 else n - 1
  }

  function PlotFraction(n: nat, p: nat): real
    requires n > 0
  {
    ((p * (n - 1)) % 1000) as real / 1000.0
  }

  lemma PlotInRange(n: nat, p: nat)
    requires n > 0 && p <= 1000
    ensures PlotLow(n, p) <= PlotHigh(n, p) < n
    ensures 0.0 <= PlotFraction(n, p) < 1.0
  {
    MulMonotone(n - 1, p, 1000);
  }

  function Share(way: real, fraction: real): real {
    fraction * way
  }

  /** A fraction of the way from `low` to `high`. */
  function OnTheWay(low: real, high: real, fraction: real): real {
    low + Share(high - low, fraction)
  }

  function PlotPercentile(sorted: seq<u64>, p: nat): (r: Option<real>)
    requires p <= 1000
    ensures r.None? <==> sorted == []
  {
    if sorted == [] then None
    else if |sorted| == 1 then Some(sorted[0] as real)
    else
      PlotInRange(|sorted|, p);
      var low, high := sorted[PlotLow(|sorted|, p)] as real, sorted[PlotHigh(|sorted|, p)] as real;
      Some(OnTheWay(low, high, PlotFraction(|sorted|, p)))
  }

  function PlotRank(n: nat, p: nat): real
    requires n > 0
  {
    p as real / 1000.0 * (n - 1) as real
  }

  lemma ThousandthsSplit(x: nat)
    ensures x as real / 1000.0 == (x / 1000) as real + (x % 1000) as real / 1000.0
    ensures (x as real / 1000.0).Floor == x / 1000
  {
    assert x == 1000 * (x / 1000) + x % 1000;
  }

  lemma RankSplits(n: nat, p: nat)
    requires n > 0 && p <= 1000
    ensures PlotRank(n, p) == PlotLow(n, p) as real + PlotFraction(n, p)
    ensures PlotRank(n, p).Floor == PlotLow(n, p)
  {
    ThousandthsSplit(p * (n - 1));
    assert PlotRank(n, p) == (p * (n - 1)) as real / 1000.0 by {
      RealProduct(p, n - 1);
    }
  }

  lemma EvenShare(way: real, fraction: real, step: real)
    ensures Share(way, 0.0) == 0.0 && Share(way, 1.0) == way && Share(0.0, fraction) == 0.0
    ensures Share(way, fraction + step) == Share(way, fraction) + Share(way, step)
  {
  }

  /** It starts at `low`, ends at `high`, and equal steps of the fraction are equal steps of the way. */
  lemma EvenWay(low: real, high: real, fraction: real, step: real)
    ensures OnTheWay(low, high, 0.0) == low && OnTheWay(low, high, 1.0) == high && OnTheWay(low, low, fraction) == low
    ensures OnTheWay(low, high, fraction + step) - OnTheWay(low, high, fraction) == OnTheWay(low, high, step) - low
  {
    hide Share;
    EvenShare(high - low, fraction, step);
    EvenShare(low - low, fraction, step);
  }

  /** With the rank (q / 100) * (n - 1) split into a whole part and a rest, the
      plot's value is the rest of the way from the sample there to the next one. */
  lemma PlotInterpolates(sorted: seq<u64>, p: nat, low: nat, high: nat, rest: real)
    requires low < |sorted| && high == (if low + 1 < |sorted| then low + 1 else low) && p <= 1000
    requires PlotRank(|sorted|, p) == low as real + rest && 0.0 <= rest < 1.0
    ensures PlotPercentile(sorted, p) == Some(OnTheWay(sorted[low] as real, sorted[high] as real, rest))
  {
    hide PlotRank, PlotLow, PlotFraction, OnTheWay;
    RankSplits(|sorted|, p);
    PlotInRange(|sorted|, p);
    assert low == PlotLow(|sorted|, p) && rest == PlotFraction(|sorted|, p) && high == PlotHigh(|sorted|, p);
    EvenWay(sorted[low] as real, sorted[high] as real, rest, 0.0);
  }

  lemma RankAgainstPlot(n: nat, p: nat)
    requires n > 0 && 0 < p <= 1000
    ensures var rank, low := CeilDiv(n * p, 1000), PlotLow(n, p);
            && low <= rank - 1 <= low + 1
            && ((n * p) % 1000 == 0 ==> rank - 1 == low)
  {
    var x := p * (n - 1);
    assert n * p == x + p;
    var low, rest := x / 1000, x % 1000;
    assert CeilDiv(n * p, 1000) == low + (rest + p + 999) / 1000;
  }

  /** The table's sample is always one of the two between which the plot interpolates. */
  lemma RankIsPlotEnd(fl: real -> real, n: nat, p: nat)
    requires RoundsToNearest(fl) && 0 < n <= RANKED && p <= 1000
    ensures Index(fl, n, p) == PlotLow(n, p) || Index(fl, n, p) == PlotHigh(n, p)
  {
    hide Rank, Ceil, RoundsToNearest;
    AnyRank(fl, n, p);
    PlotInRange(n, p);
    if p > 0 {
      RankBounds(n, p);
      RankAgainstPlot(n, p);
    }
  }

  lemma ShareWithin(way: real, fraction: real)
    requires way >= 0.0 && 0.0 <= fraction <= 1.0
    ensures 0.0 <= Share(way, fraction) <= way
  {
    MulAtMost(fraction, 1.0, way);
    NotNegative(fraction, way);
  }

  lemma Between(low: real, high: real, fraction: real)
    requires low <= high && 0.0 <= fraction <= 1.0
    ensures low <= OnTheWay(low, high, fraction) <= high
  {
    hide Share;
    ShareWithin(high - low, fraction);
  }

  lemma Ascending(sorted: seq<u64>, i: nat, j: nat)
    requires Sorted(sorted) && i <= j < |sorted|
    ensures sorted[i] <= sorted[j]
  {
    assert i < j ==> Value(sorted[i]) <= Value(sorted[j]);
  }

  lemma PlotBetweenEnds(sorted: seq<u64>, p: nat)
    requires Sorted(sorted) && sorted != [] && p <= 1000
    ensures PlotLow(|sorted|, p) <= PlotHigh(|sorted|, p) < |sorted|
    ensures sorted[PlotLow(|sorted|, p)] as real <= PlotPercentile(sorted, p).value
            <= sorted[PlotHigh(|sorted|, p)] as real
  {
    hide PlotLow, PlotHigh, PlotFraction, OnTheWay;
    PlotInRange(|sorted|, p);
    var low, high := PlotLow(|sorted|, p), PlotHigh(|sorted|, p);
    Ascending(sorted, low, high);
    Between(sorted[low] as real, sorted[high] as real, PlotFraction(|sorted|, p));
  }

  /** So for every percent the table and the plot differ by at most the gap between two adjacent samples. */
  lemma TableNearPlot(fl: real -> real, sorted: seq<u64>, p: nat)
    requires RoundsToNearest(fl) && Sorted(sorted) && 0 < |sorted| <= RANKED && p <= 1000
    ensures PlotLow(|sorted|, p) <= PlotHigh(|sorted|, p) < |sorted|
    ensures PlotHigh(|sorted|, p) <= PlotLow(|sorted|, p) + 1
    ensures var low, high := sorted[PlotLow(|sorted|, p)], sorted[PlotHigh(|sorted|, p)];
            && (Percentile(fl, sorted, p) == low || Percentile(fl, sorted, p) == high)
            && low as real <= PlotPercentile(sorted, p).value <= high as real
  {
    PlotBetweenEnds(sorted, p);
    RankIsPlotEnd(fl, |sorted|, p);
  }
}

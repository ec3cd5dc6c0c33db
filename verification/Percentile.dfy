/** Latency histograms of `metrics_store.py` and the percentiles read off them, in exact
    arithmetic. */
module Percentile {

  const LATENCY_BUCKETS_MS: seq<int> := [5, 10, 25, 50, 100, 250, 500, 1000, 2000, 5000]
  const BUCKETS := 11

  type Buckets = b: seq<nat> | |b| == BUCKETS witness [0, 0, 0, 0, 0, 0, 0, 0, 0, 0, 0]

  // ----- buckets -----

  function BucketFrom(duration: real, i: nat): (idx: nat)
    requires i <= |LATENCY_BUCKETS_MS|
    ensures i <= idx <= |LATENCY_BUCKETS_MS|
    decreases |LATENCY_BUCKETS_MS| - i
  {
    if i == |LATENCY_BUCKETS_MS| || duration <= LATENCY_BUCKETS_MS[i] as real then i else BucketFrom(duration, i + 1)
  }

  /** `_bucket_index`: the first bucket whose limit is not below the duration. */
  function BucketIndex(duration: real): (idx: nat)
    ensures idx < BUCKETS
  {
    BucketFrom(if duration < 0.0 then 0.0 else duration, 0)
  }

  lemma {:induction false} BucketFromBounds(duration: real, i: nat)
    requires i <= |LATENCY_BUCKETS_MS|
    ensures var idx := BucketFrom(duration, i);
            && (idx < |LATENCY_BUCKETS_MS| ==> duration <= LATENCY_BUCKETS_MS[idx] as real)
            && (idx > i ==> duration > LATENCY_BUCKETS_MS[idx - 1] as real)
    decreases |LATENCY_BUCKETS_MS| - i
  {
    if i < |LATENCY_BUCKETS_MS| { BucketFromBounds(duration, i + 1); }
  }

  lemma {:induction false} BucketFromIsMonotone(d: real, e: real, i: nat)
    requires d <= e && i <= |LATENCY_BUCKETS_MS|
    ensures BucketFrom(d, i) <= BucketFrom(e, i)
    decreases |LATENCY_BUCKETS_MS| - i
  {
    if i < |LATENCY_BUCKETS_MS| { BucketFromIsMonotone(d, e, i + 1); }
  }

  lemma BucketIndexIsMonotone(d: real, e: real)
    requires d <= e
    ensures BucketIndex(d) <= BucketIndex(e)
  {
    BucketFromIsMonotone(if d < 0.0 then 0.0 else d, if e < 0.0 then 0.0 else e, 0);
  }

  /** What `_hist_percentile` reports for bucket `idx`: its limit, or one above the last limit. */
  function Limit(idx: nat): int
    requires idx < BUCKETS
  {
    if idx < |LATENCY_BUCKETS_MS| then LATENCY_BUCKETS_MS[idx] else LATENCY_BUCKETS_MS[|LATENCY_BUCKETS_MS| - 1] + 1
  }

  // ----- histograms -----

  const EMPTY: Buckets := [0, 0, 0, 0, 0, 0, 0, 0, 0, 0, 0]

  function One(duration: real): Buckets { EMPTY[BucketIndex(duration) := 1] }

  function Add(a: Buckets, b: Buckets): Buckets { seq(BUCKETS, i requires 0 <= i < BUCKETS => a[i] + b[i]) }

  /** The histogram of a list of durations. */
  function Histogram(ds: seq<real>): Buckets {
    if ds == [] then EMPTY else Add(Histogram(ds[..|ds| - 1]), One(ds[|ds| - 1]))
  }

  function Prefix(b: seq<nat>, n: nat): nat
    requires n <= |b|
  {
    if n == 0 then 0 else Prefix(b, n - 1) + b[n - 1]
  }

  function Total(b: Buckets): nat { Prefix(b, BUCKETS) }

  function Count(ds: seq<real>, p: real -> bool): nat {
    if ds == [] then 0 else Count(ds[..|ds| - 1], p) + if p(ds[|ds| - 1]) then 1 else 0
  }

  lemma {:induction false} PrefixOfAdd(a: Buckets, b: Buckets, n: nat)
    requires n <= BUCKETS
    ensures Prefix(Add(a, b), n) == Prefix(a, n) + Prefix(b, n)
  {
    if n > 0 { PrefixOfAdd(a, b, n - 1); }
  }

  lemma {:induction false} PrefixOfOne(d: real, n: nat)
    requires n <= BUCKETS
    ensures Prefix(One(d), n) == if BucketIndex(d) < n then 1 else 0
  {
    if n > 0 { PrefixOfOne(d, n - 1); }
  }

  lemma {:induction false} PrefixOfEmpty(n: nat)
    requires n <= BUCKETS
    ensures Prefix(EMPTY, n) == 0
  {
    if n > 0 { PrefixOfEmpty(n - 1); }
  }

  /** The first `n` buckets count the durations that fall into them; all buckets count them all. */
  lemma {:induction false} PrefixCounts(ds: seq<real>, n: nat)
    requires n <= BUCKETS
    ensures Prefix(Histogram(ds), n) == Count(ds, d => BucketIndex(d) < n)
    ensures Total(Histogram(ds)) == |ds|
    decreases |ds|
  {
    if ds == [] {
      PrefixOfEmpty(n);
      PrefixOfEmpty(BUCKETS);
    } else {
      var front, last := ds[..|ds| - 1], ds[|ds| - 1];
      PrefixCounts(front, n);
      PrefixOfAdd(Histogram(front), One(last), n);
      PrefixOfAdd(Histogram(front), One(last), BUCKETS);
      PrefixOfOne(last, n);
      PrefixOfOne(last, BUCKETS);
    }
  }

  lemma {:induction false} CountIsMonotone(ds: seq<real>, p: real -> bool, q: real -> bool)
    requires forall d :: d in ds && p(d) ==> q(d)
    ensures Count(ds, p) <= Count(ds, q)
    decreases |ds|
  {
    if ds != [] {
      var last := ds[|ds| - 1];
      assert last in ds && (p(last) ==> q(last));
      CountIsMonotone(ds[..|ds| - 1], p, q);
    }
  }

  // ----- percentiles -----

  /** The nearest rank of the `percentile`th percentile among `total` values. */
  function Rank(total: nat, percentile: nat): nat {
    var ceiling := (total * percentile + 99) / 100;
    if ceiling < 1 then 1 else ceiling
  }

  /** First index at which the running count reaches `target`; BUCKETS when none does. */
  function Reach(b: Buckets, target: nat, i: nat): (idx: nat)
    requires i <= BUCKETS
    ensures i <= idx <= BUCKETS
    decreases BUCKETS - i
  {
    if i == BUCKETS || Prefix(b, i + 1) >= target then i else Reach(b, target, i + 1)
  }

  /** `_hist_percentile` */
  function HistPercentile(b: Buckets, percentile: nat): int {
    if Total(b) == 0 then 0
    else
      var idx := Reach(b, Rank(Total(b), percentile), 0);
      if idx < BUCKETS then Limit(idx) else Limit(BUCKETS - 1)
  }

  method ComputeTotal(b: Buckets) returns (total: nat)
    ensures total == Total(b)
  {
    total := 0;
    for i := 0 to BUCKETS
      invariant total == Prefix(b, i)
    {
      total := total + b[i];
    }
  }

  method ComputePercentile(b: Buckets, percentile: nat) returns (limit: int)
    ensures limit == HistPercentile(b, percentile)
  {
    var total := ComputeTotal(b);
    if total <= 0 { return 0; }
    var target := Rank(total, percentile);
    var running := 0;
    for idx := 0 to BUCKETS
      invariant running == Prefix(b, idx)
      invariant Reach(b, target, 0) == Reach(b, target, idx)
    {
      running := running + b[idx];
      if running >= target { return Limit(idx); }
    }
    return Limit(BUCKETS - 1);
  }

  /** `v` is the exact percentile of the recorded values: the least of them that has at least
      `percentile` in a hundred of them at or below it. */
  ghost predicate IsNearestRank(ds: seq<real>, percentile: nat, v: real) {
    && v in ds
    && percentile * |ds| <= 100 * Count(ds, d => d <= v)
    && forall u :: u in ds && u < v ==> 100 * Count(ds, d => d <= u) < percentile * |ds|
  }

  /** Some value counts at least as many values at or below it as there are below `v`, and lies
      below `v`. */
  lemma {:induction false} GreatestBelow(ds: seq<real>, v: real) returns (u: real)
    requires Count(ds, d => d < v) > 0
    ensures u in ds && u < v && forall d :: d in ds && d < v ==> d <= u
    decreases |ds|
  {
    var front, last := ds[..|ds| - 1], ds[|ds| - 1];
    assert forall d :: d in ds ==> d in front || d == last;
    if Count(front, d => d < v) > 0 {
      u := GreatestBelow(front, v);
      if u < last < v { u := last; }
    } else {
      u := last;
      NoneCounted(front, v);
    }
  }

  lemma {:induction false} NoneCounted(ds: seq<real>, v: real)
    requires Count(ds, d => d < v) == 0
    ensures forall d :: d in ds ==> d >= v
    decreases |ds|
  {
    if ds != [] {
      NoneCounted(ds[..|ds| - 1], v);
      assert forall d :: d in ds ==> d in ds[..|ds| - 1] || d == ds[|ds| - 1];
    }
  }

  lemma {:induction false} CountAll(ds: seq<real>, p: real -> bool)
    requires forall d :: d in ds ==> p(d)
    ensures Count(ds, p) == |ds|
    decreases |ds|
  {
    if ds != [] {
      var front, last := ds[..|ds| - 1], ds[|ds| - 1];
      assert last in ds && p(last);
      assert forall d :: d in front ==> d in ds;
      CountAll(front, p);
    }
  }

  lemma {:induction false} Greatest(ds: seq<real>) returns (u: real)
    requires ds != []
    ensures u in ds && forall d :: d in ds ==> d <= u
    decreases |ds|
  {
    var front, last := ds[..|ds| - 1], ds[|ds| - 1];
    assert forall d :: d in ds ==> d in front || d == last;
    if front == [] {
      u := last;
    } else {
      u := Greatest(front);
      if u < last { u := last; }
    }
  }

  lemma {:induction false} CountDrops(ds: seq<real>, u: real)
    requires u in ds
    ensures Count(ds, d => d < u) < Count(ds, d => d <= u)
    decreases |ds|
  {
    var front := ds[..|ds| - 1];
    if u in front {
      CountDrops(front, u);
    } else {
      assert ds[|ds| - 1] == u;
      CountIsMonotone(front, d => d < u, d => d <= u);
    }
  }

  /** A rank is a count that reaches its share; the first one is always asked for. */
  lemma RankIsShare(total: nat, percentile: nat, count: nat)
    ensures Rank(total, percentile) <= count <==> percentile * total <= 100 * count && 1 <= count
  {}

  lemma NoneLess(ds: seq<real>, v: real, target: int)
    requires Count(ds, d => d < v) == 0
    ensures forall u :: u in ds && u < v ==> 100 * Count(ds, d => d <= u) < target
  {
    NoneCounted(ds, v);
  }

  /** Nearest rank in counts: put in order, the value stands at the rank the source computes. */
  lemma NearestRankByCount(ds: seq<real>, percentile: nat, v: real)
    requires v in ds
    ensures IsNearestRank(ds, percentile, v)
            <==> Count(ds, d => d < v) < Rank(|ds|, percentile) <= Count(ds, d => d <= v)
    ensures percentile > 0 ==>
              (IsNearestRank(ds, percentile, v)
               <==> 100 * Count(ds, d => d < v) < percentile * |ds| <= 100 * Count(ds, d => d <= v))
  {
    var below, upTo, target := Count(ds, d => d < v), Count(ds, d => d <= v), percentile * |ds|;
    CountDrops(ds, v);
    RankIsShare(|ds|, percentile, upTo);
    RankIsShare(|ds|, percentile, below);
    if below == 0 {
      NoneLess(ds, v, target);
    } else {
      var u := GreatestBelow(ds, v);
      CountIsMonotone(ds, d => d < v, d => d <= u);
      forall w | w in ds && w < v ensures Count(ds, d => d <= w) <= below {
        CountIsMonotone(ds, d => d <= w, d => d < v);
      }
    }
  }

  /** Every non-empty list has a value at each nearest rank, and only one. */
  lemma NearestRankExists(ds: seq<real>, percentile: nat) returns (v: real)
    requires ds != [] && percentile <= 100
    ensures IsNearestRank(ds, percentile, v)
    ensures forall u :: IsNearestRank(ds, percentile, u) ==> u == v
  {
    var rank := Rank(|ds|, percentile);
    RankIsInRange(|ds|, percentile);
    v := Greatest(ds);
    CountAll(ds, d => d <= v);
    while Count(ds, d => d < v) >= rank
      invariant v in ds && Count(ds, d => d <= v) >= rank
      decreases Count(ds, d => d < v)
    {
      var u := GreatestBelow(ds, v);
      CountIsMonotone(ds, d => d < v, d => d <= u);
      CountDrops(ds, u);
      CountIsMonotone(ds, d => d <= u, d => d < v);
      v := u;
    }
    NearestRankByCount(ds, percentile, v);
  }

  lemma {:induction false} PrefixIsMonotone(b: seq<nat>, m: nat, n: nat)
    requires m <= n <= |b|
    ensures Prefix(b, m) <= Prefix(b, n)
    decreases n
  {
    if m < n { PrefixIsMonotone(b, m, n - 1); }
  }

  lemma {:induction false} ReachIsFirst(b: Buckets, target: nat, i: nat, idx: nat)
    requires i <= idx < BUCKETS
    requires Prefix(b, idx) < target <= Prefix(b, idx + 1)
    ensures Reach(b, target, i) == idx
    decreases idx - i
  {
    if i < idx {
      PrefixIsMonotone(b, i + 1, idx);
      ReachIsFirst(b, target, i + 1, idx);
    }
  }

  /** Main result: the percentile read off the histogram is the limit of the bucket that holds
      the exact percentile of the durations recorded. */
  lemma PercentileNamesTheBucket(ds: seq<real>, percentile: nat, v: real)
    requires IsNearestRank(ds, percentile, v)
    ensures HistPercentile(Histogram(ds), percentile) == Limit(BucketIndex(v))
  {
    var i := BucketIndex(v);
    NearestRankByCount(ds, percentile, v);
    PrefixCounts(ds, i);
    PrefixCounts(ds, i + 1);
    forall d | d in ds ensures (d <= v ==> BucketIndex(d) < i + 1) && (BucketIndex(d) < i ==> d < v) {
      if d <= v { BucketIndexIsMonotone(d, v); }
      if v <= d { BucketIndexIsMonotone(v, d); }
    }
    CountIsMonotone(ds, d => d <= v, d => BucketIndex(d) < i + 1);
    CountIsMonotone(ds, d => BucketIndex(d) < i, d => d < v);
    ReachIsFirst(Histogram(ds), Rank(|ds|, percentile), 0, i);
  }

  lemma LimitsIncrease(i: nat, j: nat)
    requires i < BUCKETS && j < BUCKETS
    ensures i < j ==> Limit(i) < Limit(j)
  {}

  lemma BucketBounds(d: real)
    ensures var i := BucketIndex(d);
            && (Limit(i) <= 5000 ==> d <= Limit(i) as real)
            && (Limit(i) == 5001 <==> d > 5000.0)
            && (i > 0 ==> d > Limit(i - 1) as real)
  {
    BucketFromBounds(if d < 0.0 then 0.0 else d, 0);
  }

  /** The limits reported, by the duration. */
  lemma LimitOfDuration(d: real)
    ensures var limit := Limit(BucketIndex(d));
            && limit in {5, 10, 25, 50, 100, 250, 500, 1000, 2000, 5000, 5001}
            && (limit == 5 <==> d <= 5.0) && (limit <= 10 <==> d <= 10.0) && (limit <= 25 <==> d <= 25.0)
            && (limit <= 50 <==> d <= 50.0) && (limit <= 100 <==> d <= 100.0) && (limit <= 250 <==> d <= 250.0)
            && (limit <= 500 <==> d <= 500.0) && (limit <= 1000 <==> d <= 1000.0) && (limit <= 2000 <==> d <= 2000.0)
            && (limit <= 5000 <==> d <= 5000.0)
  {
    BucketFromBounds(if d < 0.0 then 0.0 else d, 0);
    hide BucketFrom;
  }

  /** Hence it brackets the exact percentile: not below it up to 5001, which stands for "above
      every limit", and the previous limit is strictly below it. */
  lemma PercentileBrackets(ds: seq<real>, percentile: nat, v: real)
    requires IsNearestRank(ds, percentile, v)
    ensures var limit := HistPercentile(Histogram(ds), percentile);
            && (limit <= 5000 ==> v <= limit as real)
            && (limit == 5001 <==> v > 5000.0)
            && (forall i :: 0 < i < BUCKETS && limit == Limit(i) ==> v > Limit(i - 1) as real)
  {
    PercentileNamesTheBucket(ds, percentile, v);
    BucketBounds(v);
    hide BucketIndex, HistPercentile;
    forall i | 0 < i < BUCKETS && Limit(BucketIndex(v)) == Limit(i) ensures v > Limit(i - 1) as real {
      LimitsIncrease(i, BucketIndex(v));
      LimitsIncrease(BucketIndex(v), i);
    }
  }

  lemma RankIsInRange(total: nat, percentile: nat)
    requires 0 < total && percentile <= 100
    ensures 1 <= Rank(total, percentile) <= total
  {
    assert total * percentile <= total * 100;
  }

  lemma {:induction false} ReachIsMonotone(b: Buckets, s: nat, t: nat, i: nat)
    requires s <= t && i <= BUCKETS
    ensures Reach(b, s, i) <= Reach(b, t, i)
    decreases BUCKETS - i
  {
    if i < BUCKETS { ReachIsMonotone(b, s, t, i + 1); }
  }

  lemma {:induction false} ReachIsInside(b: Buckets, target: nat, i: nat)
    requires i < BUCKETS && target <= Total(b)
    ensures Reach(b, target, i) < BUCKETS
    decreases BUCKETS - i
  {
    if i + 1 < BUCKETS { ReachIsInside(b, target, i + 1); }
  }

  /** Larger percentiles are never smaller, and on a non-empty histogram the loop always returns
      from inside: the line after it is never reached. */
  lemma PercentilesAreOrdered(b: Buckets, p: nat, q: nat)
    requires p <= q <= 100
    ensures HistPercentile(b, p) <= HistPercentile(b, q)
    ensures Total(b) > 0 ==> Reach(b, Rank(Total(b), q), 0) < BUCKETS
  {
    if Total(b) > 0 {
      RankIsInRange(Total(b), q);
      assert Total(b) * p <= Total(b) * q;
      ReachIsMonotone(b, Rank(Total(b), p), Rank(Total(b), q), 0);
      ReachIsInside(b, Rank(Total(b), q), 0);
    }
  }
}

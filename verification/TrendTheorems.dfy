/** What the rows of a trend store mean in terms of the requests recorded. */
module TrendTheorems {
  import opened Percentile
  import opened TrendStore

  // ----- minutes, routes and windows -----

  /** A request belongs to the whole minute it was observed in, and to its route, or to `-` if it
      has none; it is recorded there and under `__all__`. */
  lemma SampleKey(t: Table, s: Sample)
    ensures Record(t, s).Keys == t.Keys + {Key(Minute(s), Route(s)), Key(Minute(s), "__all__")}
    ensures Minute(s) % 60 == 0 && Minute(s) as real <= s.observedAt < (Minute(s) + 60) as real
    ensures Route(s) != "" && (s.routeKey != "" ==> Route(s) == s.routeKey) && (s.routeKey == "" ==> Route(s) == "-")
  {}

  /** A query lists the minutes that lie at most its window back, or at most sixty seconds if the
      window is shorter, and none before the epoch. */
  lemma WindowMeaning(now: int, window: int, minute: int)
    ensures minute >= Horizon(now, window) <==> minute >= 0 && (now - minute <= window || now - minute <= 60)
  {}

  /** Pruning takes every sample before the cutoff out of the log and leaves the others. */
  lemma {:induction false} PrunedSamples(log: seq<Sample>, cutoff: int, s: Sample)
    ensures multiset(Since(log, cutoff))[s] == if Minute(s) < cutoff then 0 else multiset(log)[s]
    decreases |log|
  {
    hide Minute;
    if log != [] {
      var front, last := log[..|log| - 1], log[|log| - 1];
      assert log == front + [last];
      PrunedSamples(front, cutoff, s);
    }
  }

  // ----- both backends, any run -----

  datatype Op = RecordOp(sample: Sample) | FlushOp | PruneOp(cutoff: int)

  /** The samples a run of operations leaves standing. */
  function LogAfter(ops: seq<Op>): seq<Sample> {
    if ops == [] then []
    else
      var log := LogAfter(ops[..|ops| - 1]);
      match ops[|ops| - 1]
      case RecordOp(s) => log + [s]
      case FlushOp => log
      case PruneOp(cutoff) => Since(log, cutoff)
  }

  /** For every mix of records, flushes and prunes both backends answer a query with the same
      list: the rows of the surviving log in the order of time. */
  method RunBothBackends(ops: seq<Op>, route: string, window: int, now: int)
    returns (memory: seq<Point>, sqlite: seq<Point>)
    ensures memory == sqlite && Lists(memory, Aggregate(LogAfter(ops)), route, Horizon(now, window))
  {
    hide Aggregate, IsPoint, Since, Horizon;
    var m := new MemoryMetricsTrendStore();
    var q := new SqliteMetricsTrendStore();
    for i := 0 to |ops|
      invariant m.Valid() && q.Valid() && fresh(m) && fresh(q)
      invariant m.log == q.log == LogAfter(ops[..i])
    {
      assert ops[..i + 1][..|ops[..i + 1]| - 1] == ops[..i];
      match ops[i] {
        case RecordOp(s) =>
          m.RecordRequest(s);
          q.RecordRequest(s);
        case FlushOp =>
          m.Flush();
          q.Flush();
        case PruneOp(cutoff) =>
          m.PruneOlderThan(cutoff);
          q.PruneOlderThan(cutoff);
      }
    }
    assert ops[..|ops|] == ops;
    memory := m.Query(route, window, now);
    sqlite := q.Query(route, window, now);
    ListIsUnique(memory, sqlite);
  }

  // ----- a row counts the samples that match its key -----

  /** Samples that count for a key. A request on a route that is itself called `__all__` counts
      twice for the row of that name. */
  function Matching(log: seq<Sample>, k: Key): seq<Sample> {
    if log == [] then []
    else
      var s := log[|log| - 1];
      Matching(log[..|log| - 1], k)
      + (if Minute(s) == k.minute && Route(s) == k.route then [s] else [])
      + (if Minute(s) == k.minute && k.route == ALL then [s] else [])
  }

  function RowOf(samples: seq<Sample>): Row {
    if samples == [] then NO_REQUESTS else Plus(RowOf(samples[..|samples| - 1]), OneRow(samples[|samples| - 1]))
  }

  lemma RowOfSnoc(samples: seq<Sample>, s: Sample)
    ensures RowOf(samples + [s]) == Plus(RowOf(samples), OneRow(s))
  {
    hide Plus, OneRow;
    assert (samples + [s])[..|samples + [s]| - 1] == samples;
  }

  /** The aggregate has a row for exactly the keys some sample matches, and the row adds those
      samples up. */
  lemma {:induction false} AggregateCountsMatching(log: seq<Sample>, k: Key)
    ensures k in Aggregate(log) <==> Matching(log, k) != []
    ensures At(Aggregate(log), k) == RowOf(Matching(log, k))
    decreases |log|
  {
    hide Plus, OneRow, Minute;
    if log != [] {
      var front, s := log[..|log| - 1], log[|log| - 1];
      AggregateCountsMatching(front, k);
      var before := Matching(front, k);
      RowOfSnoc(before, s);
      RowOfSnoc(before + [s], s);
      var named, all := Minute(s) == k.minute && Route(s) == k.route, Minute(s) == k.minute && k.route == ALL;
      var once := Accumulate(Aggregate(front), Key(Minute(s), Route(s)), s);
      assert Aggregate(log) == Accumulate(once, Key(Minute(s), ALL), s);
      assert At(once, k) == if named then RowOf(before + [s]) else RowOf(before);
      assert Matching(log, k)
          == if named && all then before + [s] + [s] else if named || all then before + [s] else before;
    }
  }

  function Durations(samples: seq<Sample>): seq<real> {
    seq(|samples|, i requires 0 <= i < |samples| => samples[i].duration)
  }

  /** How many samples have a status from `low` to `high`. */
  function CountStatus(samples: seq<Sample>, low: int, high: int): nat {
    if samples == [] then 0
    else (if low <= samples[0].status <= high then 1 else 0) + CountStatus(samples[1..], low, high)
  }

  lemma {:induction false} CountStatusSnoc(samples: seq<Sample>, s: Sample, low: int, high: int)
    ensures CountStatus(samples + [s], low, high)
            == CountStatus(samples, low, high) + if low <= s.status <= high then 1 else 0
    decreases |samples|
  {
    var all := samples + [s];
    if samples == [] {
      assert all[0] == s && all[1..] == [];
    } else {
      assert all[0] == samples[0] && all[1..] == samples[1..] + [s];
      CountStatusSnoc(samples[1..], s, low, high);
    }
  }

  /** A row holds the number of its samples, how many of them have a status from 400 to 499 and from
      500 to 599, and the histogram of their durations; its buckets sum up to the count. */
  lemma {:induction false} RowMeaning(samples: seq<Sample>)
    ensures var row := RowOf(samples);
            && row.requests == |samples|
            && row.status4xx == CountStatus(samples, 400, 499) && row.status5xx == CountStatus(samples, 500, 599)
            && row.latency == Histogram(Durations(samples))
            && Total(row.latency) == row.requests
    decreases |samples|
  {
    hide Add, One, Total;
    PrefixCounts(Durations(samples), 0);
    if samples != [] {
      var front, s := samples[..|samples| - 1], samples[|samples| - 1];
      RowMeaning(front);
      assert samples == front + [s];
      CountStatusSnoc(front, s, 400, 499);
      CountStatusSnoc(front, s, 500, 599);
      assert Durations(samples)[..|samples| - 1] == Durations(front);
    }
  }

  /** Main result: the percentile a query reports for a row is the limit of the bucket that holds
      the exact nearest-rank percentile of the durations recorded for its minute and route. */
  lemma RowPercentileNamesTheBucket(log: seq<Sample>, k: Key, percentile: nat, v: real)
    requires k in Aggregate(log)
    requires IsNearestRank(Durations(Matching(log, k)), percentile, v)
    ensures HistPercentile(Aggregate(log)[k].latency, percentile) == Limit(BucketIndex(v))
  {
    hide HistPercentile, IsNearestRank, RowOf, CountStatus;
    AggregateCountsMatching(log, k);
    RowMeaning(Matching(log, k));
    PercentileNamesTheBucket(Durations(Matching(log, k)), percentile, v);
  }

  // ----- the row for all routes -----

  /** Sum of the rows of a minute over a set of routes. */
  ghost function SumOver(log: seq<Sample>, minute: int, routes: set<string>): Row
    decreases |routes|
  {
    if routes == {} then NO_REQUESTS
    else
      var r :| r in routes;
      Plus(RowOf(Matching(log, Key(minute, r))), SumOver(log, minute, routes - {r}))
  }

  lemma {:induction false} SumTakesOut(log: seq<Sample>, minute: int, routes: set<string>, r: string)
    requires r in routes
    ensures SumOver(log, minute, routes)
            == Plus(RowOf(Matching(log, Key(minute, r))), SumOver(log, minute, routes - {r}))
    decreases |routes|
  {
    hide Plus, RowOf, Matching;
    var q :| q in routes && SumOver(log, minute, routes)
                            == Plus(RowOf(Matching(log, Key(minute, q))), SumOver(log, minute, routes - {q}));
    if q != r {
      SumTakesOut(log, minute, routes - {q}, r);
      SumTakesOut(log, minute, routes - {r}, q);
      assert routes - {q} - {r} == routes - {r} - {q};
      var a, b, c := RowOf(Matching(log, Key(minute, q))), RowOf(Matching(log, Key(minute, r))),
                     SumOver(log, minute, routes - {r} - {q});
      PlusIsCommutativeMonoid(a, b, c);
      PlusIsCommutativeMonoid(b, a, c);
    }
  }

  lemma {:induction false} SumIgnores(log: seq<Sample>, s: Sample, minute: int, routes: set<string>)
    requires ALL !in routes && (Minute(s) == minute ==> Route(s) !in routes)
    ensures SumOver(log + [s], minute, routes) == SumOver(log, minute, routes)
    decreases |routes|
  {
    hide Plus, RowOf, Minute;
    if routes != {} {
      var r :| r in routes;
      SumTakesOut(log, minute, routes, r);
      SumTakesOut(log + [s], minute, routes, r);
      SumIgnores(log, s, minute, routes - {r});
      MatchingSnoc(log, s, Key(minute, r));
      assert Matching(log, Key(minute, r)) + [] + [] == Matching(log, Key(minute, r));
    }
  }

  lemma MatchingSnoc(log: seq<Sample>, s: Sample, k: Key)
    ensures Matching(log + [s], k)
            == Matching(log, k)
               + (if Minute(s) == k.minute && Route(s) == k.route then [s] else [])
               + (if Minute(s) == k.minute && k.route == ALL then [s] else [])
  {
    hide Minute;
    assert (log + [s])[..|log + [s]| - 1] == log;
  }

  lemma SumCounts(log: seq<Sample>, s: Sample, minute: int, routes: set<string>)
    requires ALL !in routes && Minute(s) == minute && Route(s) in routes
    ensures SumOver(log + [s], minute, routes) == Plus(SumOver(log, minute, routes), OneRow(s))
  {
    hide Plus, RowOf, OneRow, Minute, SumOver, Matching;
    var r := Route(s);
    var k := Key(minute, r);
    SumTakesOut(log, minute, routes, r);
    SumTakesOut(log + [s], minute, routes, r);
    SumIgnores(log, s, minute, routes - {r});
    MatchingSnoc(log, s, k);
    assert Matching(log, k) + [s] + [] == Matching(log, k) + [s];
    RowOfSnoc(Matching(log, k), s);
    var a, one, rest := RowOf(Matching(log, k)), OneRow(s), SumOver(log, minute, routes - {r});
    PlusIsCommutativeMonoid(a, one, rest);
    PlusIsCommutativeMonoid(one, rest, rest);
    PlusIsCommutativeMonoid(a, rest, one);
  }

  /** How many requests of a minute were made on a route called `__all__`. */
  function NamedAll(log: seq<Sample>, minute: int): nat {
    if log == [] then 0
    else NamedAll(log[..|log| - 1], minute) +
         if Minute(log[|log| - 1]) == minute && Route(log[|log| - 1]) == ALL then 1 else 0
  }

  /** Every minute's `__all__` row counts the requests of its route rows, plus two for each
      request on a route called `__all__`. */
  lemma {:induction false} AllCountsEverything(log: seq<Sample>, minute: int, routes: set<string>)
    requires ALL !in routes
    requires forall i :: 0 <= i < |log| && Route(log[i]) != ALL ==> Route(log[i]) in routes
    ensures RowOf(Matching(log, Key(minute, ALL))).requests
            == SumOver(log, minute, routes).requests + 2 * NamedAll(log, minute)
    ensures NamedAll(log, minute) == 0 ==> RowOf(Matching(log, Key(minute, ALL))) == SumOver(log, minute, routes)
    decreases |log|
  {
    hide Minute, SumOver, RowOf, OneRow, Plus;
    if log == [] {
      SumOfNothing(minute, routes);
      assert RowOf([]) == NO_REQUESTS by { RowOfNothing(); }
    } else {
      var front, s := log[..|log| - 1], log[|log| - 1];
      assert log == front + [s];
      AllCountsEverything(front, minute, routes);
      var all := Matching(front, Key(minute, ALL));
      RowOfSnoc(all, s);
      RowOfSnoc(all + [s], s);
      PlusCounts(RowOf(all), s);
      PlusCounts(RowOf(all + [s]), s);
      assert all + [] == all && all + [] + [s] == all + [s];
      if Minute(s) == minute && Route(s) != ALL {
        SumCounts(front, s, minute, routes);
        PlusCounts(SumOver(front, minute, routes), s);
      } else {
        SumIgnores(front, s, minute, routes);
      }
    }
  }

  lemma PlusCounts(a: Row, s: Sample)
    ensures Plus(a, OneRow(s)).requests == a.requests + 1
  {}

  lemma RowOfNothing()
    ensures RowOf([]) == NO_REQUESTS
  {}

  lemma {:induction false} SumOfNothing(minute: int, routes: set<string>)
    ensures SumOver([], minute, routes) == NO_REQUESTS
    decreases |routes|
  {
    if routes != {} {
      var r :| r in routes;
      SumTakesOut([], minute, routes, r);
      SumOfNothing(minute, routes - {r});
      PlusIsCommutativeMonoid(NO_REQUESTS, NO_REQUESTS, NO_REQUESTS);
    }
  }

  /** So the `__all__` row is the sum of the route rows exactly when no request of that minute
      was made on a route called `__all__`. */
  lemma AllIsTheSumOfRoutes(log: seq<Sample>, minute: int, routes: set<string>)
    requires ALL !in routes
    requires forall i :: 0 <= i < |log| && Route(log[i]) != ALL ==> Route(log[i]) in routes
    ensures At(Aggregate(log), Key(minute, ALL)) == SumOver(log, minute, routes) <==> NamedAll(log, minute) == 0
  {
    hide SumOver, RowOf, Matching, Aggregate;
    AggregateCountsMatching(log, Key(minute, ALL));
    AllCountsEverything(log, minute, routes);
  }

  // ----- summaries over several rows -----

  function SumRows(rows: seq<Row>): Row {
    if rows == [] then NO_REQUESTS else Plus(SumRows(rows[..|rows| - 1]), rows[|rows| - 1])
  }

  /** `summarize_points`: the counts and buckets of the points added up in a loop. */
  method SummarizePoints(points: seq<Row>) returns (total: Row)
    ensures total == SumRows(points)
  {
    total := NO_REQUESTS;
    for i := 0 to |points|
      invariant total == SumRows(points[..i])
    {
      var p := points[i];
      assert points[..i + 1][..|points[..i + 1]| - 1] == points[..i];
      var buckets: Buckets := total.latency;
      for b := 0 to BUCKETS
        invariant forall j :: 0 <= j < BUCKETS ==>
                    buckets[j] == total.latency[j] + (if j < b then p.latency[j] else 0)
      {
        buckets := buckets[b := buckets[b] + p.latency[b]];
      }
      assert buckets == Add(total.latency, p.latency);
      total := Row(total.requests + p.requests, total.status4xx + p.status4xx, total.status5xx + p.status5xx, buckets);
    }
    assert points[..|points|] == points;
  }

  lemma {:induction false} RowOfJoin(a: seq<Sample>, b: seq<Sample>)
    ensures RowOf(a + b) == Plus(RowOf(a), RowOf(b))
    decreases |b|
  {
    hide Plus, OneRow;
    if b == [] {
      assert a + b == a;
      PlusIsCommutativeMonoid(RowOf(a), NO_REQUESTS, NO_REQUESTS);
    } else {
      var front, s := b[..|b| - 1], b[|b| - 1];
      RowOfJoin(a, front);
      assert a + b == (a + front) + [s];
      RowOfSnoc(a + front, s);
      PlusIsCommutativeMonoid(RowOf(a), RowOf(front), OneRow(s));
    }
  }

  // ----- the summary of a queried window -----

  /** What a sample adds to the rows of a route in its minute. */
  function Extra(s: Sample, route: string): seq<Sample> {
    (if Route(s) == route then [s] else []) + (if route == ALL then [s] else [])
  }

  /** The samples behind the rows of a route since some minute, in the order of the log. */
  function InWindow(log: seq<Sample>, route: string, since: int): seq<Sample> {
    if log == [] then []
    else
      var s := log[|log| - 1];
      InWindow(log[..|log| - 1], route, since) + if Minute(s) >= since then Extra(s, route) else []
  }

  /** The samples behind the rows of a route in the given minutes. */
  function InMinutes(log: seq<Sample>, route: string, minutes: seq<int>): seq<Sample> {
    if log == [] then []
    else
      var s := log[|log| - 1];
      InMinutes(log[..|log| - 1], route, minutes) + if Minute(s) in minutes then Extra(s, route) else []
  }

  function MinuteRows(log: seq<Sample>, route: string, minutes: seq<int>): seq<Row> {
    seq(|minutes|, i requires 0 <= i < |minutes| => RowOf(Matching(log, Key(minutes[i], route))))
  }

  lemma {:induction false} SumRowsUpdate(rows: seq<Row>, j: nat, x: Row)
    requires j < |rows|
    ensures SumRows(rows[j := Plus(rows[j], x)]) == Plus(SumRows(rows), x)
    decreases |rows|
  {
    hide Plus;
    var last := |rows| - 1;
    var updated, front := rows[j := Plus(rows[j], x)], rows[..last];
    PlusIsCommutativeMonoid(SumRows(front), rows[last], x);
    if j == last {
      assert updated[..last] == front;
    } else {
      assert updated[..last] == front[j := Plus(front[j], x)] && updated[last] == rows[last];
      SumRowsUpdate(front, j, x);
      PlusIsCommutativeMonoid(SumRows(front), x, rows[last]);
      PlusIsCommutativeMonoid(x, rows[last], x);
    }
  }

  lemma MatchingGrows(log: seq<Sample>, s: Sample, k: Key)
    ensures Matching(log + [s], k) == Matching(log, k) + if Minute(s) == k.minute then Extra(s, k.route) else []
  {
    hide Minute, Matching;
    MatchingSnoc(log, s, k);
    assert Matching(log, k) + [] + [] == Matching(log, k) + [];
  }

  /** One more sample changes the row of its minute and no other. */
  lemma MinuteRowsGrow(log: seq<Sample>, s: Sample, route: string, minutes: seq<int>)
    requires forall i, j :: 0 <= i < j < |minutes| ==> minutes[i] != minutes[j]
    ensures SumRows(MinuteRows(log + [s], route, minutes))
            == if Minute(s) in minutes then Plus(SumRows(MinuteRows(log, route, minutes)), RowOf(Extra(s, route)))
               else SumRows(MinuteRows(log, route, minutes))
  {
    hide Minute, Matching, RowOf, Extra, Plus, SumRows;
    var before, after := MinuteRows(log, route, minutes), MinuteRows(log + [s], route, minutes);
    forall i | 0 <= i < |minutes|
      ensures after[i] == if Minute(s) == minutes[i] then Plus(before[i], RowOf(Extra(s, route))) else before[i]
    {
      var k := Key(minutes[i], route);
      MatchingGrows(log, s, k);
      RowOfJoin(Matching(log, k), Extra(s, route));
      assert Matching(log, k) + [] == Matching(log, k);
    }
    if Minute(s) in minutes {
      var j :| 0 <= j < |minutes| && minutes[j] == Minute(s);
      assert after == before[j := Plus(before[j], RowOf(Extra(s, route)))];
      SumRowsUpdate(before, j, RowOf(Extra(s, route)));
    } else {
      assert after == before;
    }
  }

  lemma {:induction false} MinuteRowsAddUp(log: seq<Sample>, route: string, minutes: seq<int>)
    requires forall i, j :: 0 <= i < j < |minutes| ==> minutes[i] != minutes[j]
    ensures SumRows(MinuteRows(log, route, minutes)) == RowOf(InMinutes(log, route, minutes))
    decreases |log|
  {
    hide Minute, Matching, RowOf, Extra, Plus, MinuteRows, SumRows;
    if log == [] {
      NoRowsWithoutSamples(route, minutes);
    } else {
      var front, s := log[..|log| - 1], log[|log| - 1];
      assert log == front + [s];
      MinuteRowsAddUp(front, route, minutes);
      MinuteRowsGrow(front, s, route, minutes);
      RowOfJoin(InMinutes(front, route, minutes), Extra(s, route));
      assert InMinutes(front, route, minutes) + [] == InMinutes(front, route, minutes);
    }
  }

  lemma NoRowsWithoutSamples(route: string, minutes: seq<int>)
    ensures SumRows(MinuteRows([], route, minutes)) == RowOf(InMinutes([], route, minutes))
  {
    RowOfNothing();
    var rows := MinuteRows([], route, minutes);
    forall i | 0 <= i < |rows| ensures rows[i] == NO_REQUESTS {
      assert Matching([], Key(minutes[i], route)) == [];
    }
    SumOfEmptyRows(rows);
  }

  lemma {:induction false} SumOfEmptyRows(rows: seq<Row>)
    requires forall i :: 0 <= i < |rows| ==> rows[i] == NO_REQUESTS
    ensures SumRows(rows) == NO_REQUESTS
    decreases |rows|
  {
    hide Plus;
    if rows != [] {
      SumOfEmptyRows(rows[..|rows| - 1]);
      PlusIsCommutativeMonoid(NO_REQUESTS, NO_REQUESTS, NO_REQUESTS);
    }
  }

  lemma {:induction false} SampleMatches(log: seq<Sample>, i: nat, route: string)
    requires i < |log| && Extra(log[i], route) != []
    ensures Matching(log, Key(Minute(log[i]), route)) != []
    decreases |log|
  {
    hide Minute;
    if i < |log| - 1 { SampleMatches(log[..|log| - 1], i, route); }
  }

  lemma {:induction false} SameSamples(log: seq<Sample>, route: string, since: int, minutes: seq<int>)
    requires forall i :: 0 <= i < |log| && Extra(log[i], route) != [] ==>
               (Minute(log[i]) in minutes <==> Minute(log[i]) >= since)
    ensures InMinutes(log, route, minutes) == InWindow(log, route, since)
    decreases |log|
  {
    hide Minute, Extra;
    if log != [] {
      var front := log[..|log| - 1];
      assert forall i :: 0 <= i < |front| ==> front[i] == log[i];
      SameSamples(front, route, since, minutes);
    }
  }

  function MinutesIn(points: seq<Point>): seq<int> {
    seq(|points|, i requires 0 <= i < |points| => points[i].minute)
  }

  function RowsIn(points: seq<Point>): seq<Row> {
    seq(|points|, i requires 0 <= i < |points| => points[i].row)
  }

  /** The rows a query lists add up to the row of all samples in its window. */
  lemma QueriedRowsAddUp(log: seq<Sample>, route: string, since: int, points: seq<Point>)
    requires Lists(points, Aggregate(log), route, since)
    ensures SumRows(RowsIn(points)) == RowOf(InWindow(log, route, since))
  {
    hide Minute, Matching, RowOf, Aggregate, SumRows, Extra, InMinutes, InWindow;
    var minutes := MinutesIn(points);
    forall i | 0 <= i < |points|
      ensures minutes[i] >= since && RowsIn(points)[i] == MinuteRows(log, route, minutes)[i]
    {
      assert points[i] in points;
      AggregateCountsMatching(log, Key(points[i].minute, route));
    }
    assert RowsIn(points) == MinuteRows(log, route, minutes);
    MinuteRowsAddUp(log, route, minutes);
    forall i | 0 <= i < |log| && Extra(log[i], route) != []
      ensures Minute(log[i]) in minutes <==> Minute(log[i]) >= since
    {
      var k := Key(Minute(log[i]), route);
      if k.minute >= since {
        SampleMatches(log, i, route);
        AggregateCountsMatching(log, k);
        var p := Point(k.minute, Aggregate(log)[k]);
        assert IsPoint(Aggregate(log), route, since, p) && p in points;
        var j :| 0 <= j < |points| && points[j] == p;
        assert minutes[j] == k.minute;
      }
    }
    SameSamples(log, route, since, minutes);
  }

  /** Main result for the summary of a query: it counts the samples of its window, and the percentile
      it reports is the limit of the bucket of the exact percentile of their durations. */
  lemma QuerySummaryNamesTheBucket(log: seq<Sample>, route: string, since: int, points: seq<Point>, percentile: nat,
                                   v: real)
    requires Lists(points, Aggregate(log), route, since)
    requires IsNearestRank(Durations(InWindow(log, route, since)), percentile, v)
    ensures var total, samples := SumRows(RowsIn(points)), InWindow(log, route, since);
            && total.requests == |samples|
            && total.status4xx == CountStatus(samples, 400, 499) && total.status5xx == CountStatus(samples, 500, 599)
    ensures HistPercentile(SumRows(RowsIn(points)).latency, percentile) == Limit(BucketIndex(v))
  {
    hide HistPercentile, IsNearestRank, RowOf, SumRows, InWindow, Lists, Aggregate, BucketIndex, CountStatus;
    QueriedRowsAddUp(log, route, since, points);
    var samples := InWindow(log, route, since);
    RowMeaning(samples);
    PercentileNamesTheBucket(Durations(samples), percentile, v);
  }

  /** A query and the summary of its points, on either backend. */
  method SummarizeQuery(memory: MemoryMetricsTrendStore, sqlite: SqliteMetricsTrendStore, route: string, window: int,
                        now: int)
    returns (fromMemory: Row, fromSqlite: Row)
    requires memory.Valid() && sqlite.Valid()
    modifies memory, sqlite
    ensures fromMemory == RowOf(InWindow(memory.log, route, Horizon(now, window))) && memory.log == old(memory.log)
    ensures fromSqlite == RowOf(InWindow(sqlite.log, route, Horizon(now, window))) && sqlite.log == old(sqlite.log)
  {
    hide RowOf, SumRows, InWindow, Lists, Aggregate, Horizon, Merge;
    var points := memory.Query(route, window, now);
    QueriedRowsAddUp(memory.log, route, Horizon(now, window), points);
    fromMemory := SummarizePoints(RowsIn(points));
    points := sqlite.Query(route, window, now);
    QueriedRowsAddUp(sqlite.log, route, Horizon(now, window), points);
    fromSqlite := SummarizePoints(RowsIn(points));
  }
}

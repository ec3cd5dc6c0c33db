/** The write-behind trend stores of `metrics_store.py`: rows keyed by minute and route, pending
    rows merged in by `flush`, old minutes removed by `prune_older_than`. */
module TrendStore {
  import opened Percentile

  const ALL: string := "__all__"

  datatype Key = Key(minute: int, route: string)

  datatype Row = Row(requests: nat, status4xx: nat, status5xx: nat, latency: Buckets)

  type Table = map<Key, Row>

  /** One recorded request. */
  datatype Sample = Sample(routeKey: string, status: int, duration: real, observedAt: real)

  /** `_minute_bucket` */
  function Minute(s: Sample): int { (s.observedAt / 60.0).Floor * 60 }

  function Route(s: Sample): string { if s.routeKey == "" then "-" else s.routeKey }

  const NO_REQUESTS := Row(0, 0, 0, EMPTY)

  function OneRow(s: Sample): Row {
    Row(1, if 400 <= s.status <= 499 then 1 else 0, if 500 <= s.status <= 599 then 1 else 0, One(s.duration))
  }

  /** `_merge_row` */
  function Plus(a: Row, b: Row): Row {
    Row(a.requests + b.requests, a.status4xx + b.status4xx, a.status5xx + b.status5xx, Add(a.latency, b.latency))
  }

  function At(t: Table, k: Key): Row { if k in t then t[k] else NO_REQUESTS }

  /** `_accumulate` */
  function Accumulate(t: Table, k: Key, s: Sample): Table { t[k := Plus(At(t, k), OneRow(s))] }

  /** What `record_request` does to the pending rows. */
  function Record(t: Table, s: Sample): Table {
    Accumulate(Accumulate(t, Key(Minute(s), Route(s)), s), Key(Minute(s), ALL), s)
  }

  function Merge(rows: Table, pending: Table): Table {
    map k | k in rows.Keys + pending.Keys ::
      if k !in rows then pending[k] else if k in pending then Plus(rows[k], pending[k]) else rows[k]
  }

  function Restrict(t: Table, cutoff: int): Table { map k | k in t && k.minute >= cutoff :: t[k] }

  // ----- the answer to a query -----

  datatype Point = Point(minute: int, row: Row)

  /** The oldest minute a query asks for: at least a minute back, and never before the epoch. */
  function Horizon(now: int, window: int): int {
    var since := now - if window < 60 then 60 else window;
    if since < 0 then 0 else since
  }

  predicate Ascending(points: seq<Point>) {
    forall i, j :: 0 <= i < j < |points| ==> points[i].minute < points[j].minute
  }

  predicate IsPoint(t: Table, route: string, since: int, p: Point) {
    Key(p.minute, route) in t && p.minute >= since && t[Key(p.minute, route)] == p.row
  }

  /** The rows of a route since some minute, each once and in the order of time. */
  ghost predicate Lists(points: seq<Point>, t: Table, route: string, since: int) {
    Ascending(points) && forall p :: p in points <==> IsPoint(t, route, since, p)
  }

  /** There is only one such list. */
  lemma {:induction false} ListIsUnique(a: seq<Point>, b: seq<Point>)
    requires Ascending(a) && Ascending(b) && forall p :: p in a <==> p in b
    ensures a == b
    decreases |a|
  {
    assert (a != [] ==> a[0] in b) && (b != [] ==> b[0] in a);
    if a != [] && b != [] {
      var x, y := a[|a| - 1], b[|b| - 1];
      assert x in a && y in b;
      assert x == y;
      var a', b' := a[..|a| - 1], b[..|b| - 1];
      forall p ensures p in a' <==> p in b' {
        assert p in a' <==> p in a && p != x;
        assert p in b' <==> p in b && p != y;
      }
      ListIsUnique(a', b');
    }
  }

  function Insert(points: seq<Point>, p: Point): seq<Point> {
    if points == [] || p.minute < points[0].minute then [p] + points else [points[0]] + Insert(points[1..], p)
  }

  lemma {:induction false} InsertKeepsOrder(points: seq<Point>, p: Point)
    requires Ascending(points) && forall q :: q in points ==> q.minute != p.minute
    ensures Ascending(Insert(points, p))
    ensures forall q :: q in Insert(points, p) <==> q == p || q in points
    decreases |points|
  {
    if points != [] && p.minute > points[0].minute {
      var rest := Insert(points[1..], p);
      InsertKeepsOrder(points[1..], p);
      forall i | 0 <= i < |rest| ensures rest[i].minute > points[0].minute {
        var q := rest[i];
        assert q in rest;
        if q != p {
          var j :| 0 <= j < |points[1..]| && points[1..][j] == q;
          assert points[j + 1] == q;
        }
      }
      assert points == [points[0]] + points[1..];
    }
  }

  /** The comprehension and the sort of `query`. */
  method SortedRows(t: Table, route: string, since: int) returns (points: seq<Point>)
    ensures Lists(points, t, route, since)
  {
    points := [];
    var todo := t.Keys;
    while todo != {}
      invariant todo <= t.Keys && Ascending(points)
      invariant forall p :: p in points <==> IsPoint(t, route, since, p) && Key(p.minute, route) !in todo
      decreases |todo|
    {
      var k :| k in todo;
      if k.route == route && k.minute >= since {
        InsertKeepsOrder(points, Point(k.minute, t[k]));
        points := Insert(points, Point(k.minute, t[k]));
      }
      todo := todo - {k};
    }
  }

  // ----- row arithmetic -----

  lemma PlusIsCommutativeMonoid(a: Row, b: Row, c: Row)
    ensures Plus(Plus(a, b), c) == Plus(a, Plus(b, c))
    ensures Plus(a, b) == Plus(b, a)
    ensures Plus(a, NO_REQUESTS) == a && Plus(NO_REQUESTS, a) == a
  {
    assert Add(Add(a.latency, b.latency), c.latency) == Add(a.latency, Add(b.latency, c.latency));
    assert Add(a.latency, b.latency) == Add(b.latency, a.latency);
    assert Add(a.latency, EMPTY) == a.latency && Add(EMPTY, a.latency) == a.latency;
  }

  /** Recording into the pending rows is recording into the merged view. */
  lemma AccumulateInto(rows: Table, pending: Table, k: Key, s: Sample)
    ensures Merge(rows, Accumulate(pending, k, s)) == Accumulate(Merge(rows, pending), k, s)
  {
    hide OneRow, Plus;
    PlusIsCommutativeMonoid(At(rows, k), At(pending, k), OneRow(s));
    PlusIsCommutativeMonoid(At(rows, k), NO_REQUESTS, OneRow(s));
    PlusIsCommutativeMonoid(OneRow(s), NO_REQUESTS, NO_REQUESTS);
  }

  lemma RecordInto(rows: Table, pending: Table, s: Sample)
    ensures Merge(rows, Record(pending, s)) == Record(Merge(rows, pending), s)
  {
    hide Accumulate, Merge;
    var k := Key(Minute(s), Route(s));
    AccumulateInto(rows, pending, k, s);
    AccumulateInto(rows, Accumulate(pending, k, s), Key(Minute(s), ALL), s);
  }

  function Upserted(rows: Table, k: Key, row: Row): Table {
    rows[k := if k in rows then Plus(rows[k], row) else row]
  }

  /** Moving one pending row over leaves the merged view alone. */
  lemma MergeOne(rows: Table, todo: Table, k: Key)
    requires k in todo
    ensures Merge(Upserted(rows, k, todo[k]), todo - {k}) == Merge(rows, todo)
  {
    hide Plus;
  }

  lemma MergeNothing(rows: Table)
    ensures Merge(rows, map[]) == rows
  {}

  lemma RestrictMerge(rows: Table, pending: Table, cutoff: int)
    ensures Restrict(Merge(rows, pending), cutoff) == Merge(Restrict(rows, cutoff), Restrict(pending, cutoff))
  {
    hide Plus;
  }

  lemma RestrictRecord(t: Table, s: Sample, cutoff: int)
    ensures Restrict(Record(t, s), cutoff)
            == if Minute(s) >= cutoff then Record(Restrict(t, cutoff), s) else Restrict(t, cutoff)
  {
    hide Plus, OneRow;
  }

  // ----- the log -----

  /** The table a log of samples adds up to. */
  function Aggregate(log: seq<Sample>): Table {
    if log == [] then map[] else Record(Aggregate(log[..|log| - 1]), log[|log| - 1])
  }

  /** The log with the pruned minutes removed. */
  function Since(log: seq<Sample>, cutoff: int): seq<Sample> {
    if log == [] then []
    else
      var front, last := Since(log[..|log| - 1], cutoff), log[|log| - 1];
      if Minute(last) >= cutoff then front + [last] else front
  }

  lemma {:induction false} PruneIsSince(log: seq<Sample>, cutoff: int)
    ensures Restrict(Aggregate(log), cutoff) == Aggregate(Since(log, cutoff))
    decreases |log|
  {
    hide Record, Restrict;
    if log == [] {
      assert Restrict(map[], cutoff) == map[] by { RestrictEmpty(cutoff); }
    } else {
      var front, last := log[..|log| - 1], log[|log| - 1];
      PruneIsSince(front, cutoff);
      RestrictRecord(Aggregate(front), last, cutoff);
      var kept := Since(front, cutoff);
      assert (kept + [last])[..|kept + [last]| - 1] == kept;
    }
  }

  lemma RestrictEmpty(cutoff: int)
    ensures Restrict(map[], cutoff) == map[]
  {}

  // ----- the memory store -----

  class MemoryMetricsTrendStore {
    var pending: Table
    var rows: Table
    ghost var log: seq<Sample>  // every sample recorded and not pruned

    /** Rows merged with pending are always the aggregate of the log. */
    ghost predicate Valid()
      reads this
    {
      Merge(rows, pending) == Aggregate(log)
    }

    constructor ()
      ensures Valid() && log == []
    {
      pending, rows, log := map[], map[], [];
    }

    method RecordRequest(s: Sample)
      requires Valid()
      modifies this
      ensures Valid() && log == old(log) + [s] && rows == old(rows)
    {
      hide Accumulate, Merge;
      RecordInto(rows, pending, s);
      pending := Accumulate(pending, Key(Minute(s), Route(s)), s);
      pending := Accumulate(pending, Key(Minute(s), ALL), s);
      assert (log + [s])[..|log|] == log;
      log := log + [s];
    }

    method Flush()
      requires Valid()
      modifies this
      ensures Valid() && log == old(log) && pending == map[] && rows == Aggregate(log)
    {
      hide Merge, Aggregate;
      var todo := pending;
      while todo != map[]
        invariant Merge(rows, todo) == Merge(old(rows), pending)
        invariant pending == old(pending) && log == old(log)
        decreases |todo|
      {
        var k :| k in todo;
        MergeOne(rows, todo, k);
        rows := Upserted(rows, k, todo[k]);
        todo := todo - {k};
      }
      MergeNothing(rows);
      pending := map[];
    }

    method PruneOlderThan(cutoff: int)
      requires Valid()
      modifies this
      ensures Valid() && log == Since(old(log), cutoff)
    {
      hide Merge, Restrict, Aggregate, Since;
      RestrictMerge(rows, pending, cutoff);
      PruneIsSince(log, cutoff);
      rows := PruneTable(rows, cutoff);
      pending := PruneTable(pending, cutoff);
      log := Since(log, cutoff);
    }

    method Query(route: string, window: int, now: int) returns (points: seq<Point>)
      requires Valid()
      modifies this
      ensures Valid() && log == old(log) && Lists(points, Aggregate(log), route, Horizon(now, window))
    {
      hide Aggregate, Merge, Lists;
      Flush();
      points := SortedRows(rows, route, Horizon(now, window));
    }
  }

  /** The loop that drops the old keys of one dictionary. */
  method PruneTable(t: Table, cutoff: int) returns (r: Table)
    ensures r == Restrict(t, cutoff)
  {
    r := t;
    var todo := t.Keys;
    while todo != {}
      invariant todo <= t.Keys && r.Keys <= t.Keys && todo <= r.Keys
      invariant forall k :: k in r ==> r[k] == t[k]
      invariant forall k :: k in t && k !in todo ==> (k in r <==> k.minute >= cutoff)
      decreases |todo|
    {
      var k :| k in todo;
      if k.minute < cutoff { r := r - {k}; }
      todo := todo - {k};
    }
  }

  // ----- the SQLite store -----

  /** `rows` is the table on disk, whose primary key is (minute, route). */
  class SqliteMetricsTrendStore {
    var pending: Table
    var rows: Table
    ghost var log: seq<Sample>

    ghost predicate Valid()
      reads this
    {
      Merge(rows, pending) == Aggregate(log)
    }

    constructor ()
      ensures Valid() && log == []
    {
      pending, rows, log := map[], map[], [];
    }

    method RecordRequest(s: Sample)
      requires Valid()
      modifies this
      ensures Valid() && log == old(log) + [s] && rows == old(rows)
    {
      hide Accumulate, Merge;
      RecordInto(rows, pending, s);
      pending := Accumulate(pending, Key(Minute(s), Route(s)), s);
      pending := Accumulate(pending, Key(Minute(s), ALL), s);
      assert (log + [s])[..|log|] == log;
      log := log + [s];
    }

    /** `INSERT ... ON CONFLICT DO UPDATE` of one row. */
    method Upsert(k: Key, row: Row)
      modifies `rows
      ensures rows == Upserted(old(rows), k, row)
    {
      if k in rows {
        rows := rows[k := Plus(rows[k], row)];
      } else {
        rows := rows[k := row];
      }
    }

    method Flush()
      requires Valid()
      modifies this
      ensures Valid() && log == old(log) && pending == map[] && rows == Aggregate(log)
    {
      hide Merge, Aggregate;
      var todo := pending;
      pending := map[];
      while todo != map[]
        invariant Merge(rows, todo) == Merge(old(rows), old(pending))
        invariant pending == map[] && log == old(log)
        decreases |todo|
      {
        var k :| k in todo;
        MergeOne(rows, todo, k);
        Upsert(k, todo[k]);
        todo := todo - {k};
      }
      MergeNothing(rows);
    }

    /** Flushes first, and then deletes on disk only. */
    method PruneOlderThan(cutoff: int)
      requires Valid()
      modifies this
      ensures Valid() && log == Since(old(log), cutoff)
    {
      hide Restrict, Aggregate, Since;
      Flush();
      PruneIsSince(log, cutoff);
      rows := PruneTable(rows, cutoff);
      log := Since(log, cutoff);
      assert Merge(rows, map[]) == rows;
    }

    method Query(route: string, window: int, now: int) returns (points: seq<Point>)
      requires Valid()
      modifies this
      ensures Valid() && log == old(log) && Lists(points, Aggregate(log), route, Horizon(now, window))
    {
      hide Aggregate, Merge, Lists;
      Flush();
      points := SortedRows(rows, route, Horizon(now, window));
    }
  }
}

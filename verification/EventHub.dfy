/** `event_hub.py`: a bounded, numbered event log, and the polling client of
    `tools/scenario_runner.py` that reads it. */
module EventHub {
  import opened Wrappers

  /** `detail` stands for the time stamp, source, trace id and payload. */
  datatype Event = Event(id: int, kind: string, detail: string)

  datatype Snapshot = Snapshot(events: seq<Event>, latestId: int, oldestId: int, overflowed: bool)

  predicate Wanted(e: Event, topics: Option<set<string>>) { topics.None? || e.kind in topics.value }

  /** The comprehension of `snapshot`. */
  function Select(events: seq<Event>, since: int, topics: Option<set<string>>): seq<Event> {
    if events == [] then []
    else
      var front, e := Select(events[..|events| - 1], since, topics), events[|events| - 1];
      if e.id > since && Wanted(e, topics) then front + [e] else front
  }

  function Newest(events: seq<Event>, limit: int): seq<Event> {
    if limit > 0 && |events| > limit then events[|events| - limit..] else events
  }

  /** `snapshot` on a buffer. */
  function TakeSnapshot(events: seq<Event>, nextId: int, since: int, limit: int,
                        topics: Option<set<string>>): Snapshot {
    var oldest := if events != [] then events[0].id else nextId;
    Snapshot(Newest(Select(events, since, topics), limit), nextId - 1, oldest, since < oldest - 1)
  }

  // ----- the published log and what is left of it -----

  /** Ids count from 1. */
  predicate Numbered(log: seq<Event>) { forall i :: 0 <= i < |log| ==> log[i].id == i + 1 }

  function Evicted(log: seq<Event>, size: nat): nat { if |log| > size then |log| - size else 0 }

  function Buffer(log: seq<Event>, size: nat): seq<Event> { log[Evicted(log, size)..] }

  /** The snapshot the hub gives after `log` has been published. */
  function SnapshotOf(log: seq<Event>, size: nat, since: int, limit: int, topics: Option<set<string>>): Snapshot {
    TakeSnapshot(Buffer(log, size), |log| + 1, since, limit, topics)
  }

  class EventHub {
    const bufferSize: nat
    var events: seq<Event>
    var nextId: int
    ghost var published: seq<Event>

    /** The buffer is the contiguous last block of what was published, ending at the last id. */
    ghost predicate Valid()
      reads this
    {
      && bufferSize >= 100
      && nextId == |published| + 1
      && Numbered(published)
      && events == Buffer(published, bufferSize)
    }

    constructor (size: int)
      ensures Valid() && published == [] && bufferSize == if size < 100 then 100 else size
    {
      bufferSize := if size < 100 then 100 else size;
      events, nextId, published := [], 1, [];
    }

    method Publish(kind: string, detail: string) returns (event: Event)
      requires Valid()
      modifies this
      ensures Valid() && event == Event(|old(published)| + 1, kind, detail)
      ensures published == old(published) + [event]
    {
      event := Event(nextId, kind, detail);
      nextId := nextId + 1;
      // a full deque drops its oldest entry
      events := if |events| == bufferSize then events[1..] + [event] else events + [event];
      published := published + [event];
    }

    method GetSnapshot(since: int, limit: int, topics: Option<set<string>>) returns (snapshot: Snapshot)
      requires Valid()
      ensures snapshot == SnapshotOf(published, bufferSize, since, limit, topics)
    {
      var latestId := nextId - 1;
      var oldestId := if events != [] then events[0].id else latestId + 1;
      var filtered := [];
      for i := 0 to |events|
        invariant filtered == Select(events[..i], since, topics)
      {
        assert events[..i + 1][..i] == events[..i];
        if events[i].id > since && Wanted(events[i], topics) { filtered := filtered + [events[i]]; }
      }
      assert events[..|events|] == events;
      if limit > 0 && |filtered| > limit { filtered := filtered[|filtered| - limit..]; }
      snapshot := Snapshot(filtered, latestId, oldestId, since < oldestId - 1);
    }
  }

  // ----- what a snapshot says about the log -----

  lemma OldestIsAfterTheEvicted(log: seq<Event>, size: nat, since: int, limit: int, topics: Option<set<string>>)
    requires Numbered(log) && size > 0
    ensures var s := SnapshotOf(log, size, since, limit, topics);
            && s.oldestId == Evicted(log, size) + 1 && (log != [] ==> s.oldestId <= |log|)
            && s.overflowed == (since < Evicted(log, size))
  {
    hide Select, Newest;
  }

  /** `overflowed` is exact: for a cursor of at least zero it holds just when an event newer than the
      cursor has been evicted; for a negative one, which a `Last-Event-ID` header can bring, always. */
  lemma OverflowIsExact(log: seq<Event>, size: nat, since: int, limit: int, topics: Option<set<string>>)
    requires Numbered(log) && size > 0
    ensures SnapshotOf(log, size, since, limit, topics).overflowed
            <==> since < 0 || exists i :: 0 <= i < Evicted(log, size) && log[i].id > since
  {
    hide SnapshotOf;
    OldestIsAfterTheEvicted(log, size, since, limit, topics);
    var evicted := Evicted(log, size);
    if since < evicted && evicted > 0 { assert log[evicted - 1].id > since; }
  }

  /** All events of a topic, in order. */
  function Matching(log: seq<Event>, topics: Option<set<string>>): seq<Event> {
    if log == [] then []
    else
      var front, e := Matching(log[..|log| - 1], topics), log[|log| - 1];
      if Wanted(e, topics) then front + [e] else front
  }

  lemma {:induction false} MatchingConcat(a: seq<Event>, b: seq<Event>, topics: Option<set<string>>)
    ensures Matching(a + b, topics) == Matching(a, topics) + Matching(b, topics)
    decreases |b|
  {
    if b == [] {
      assert a + b == a;
    } else {
      assert (a + b)[..|a + b| - 1] == a + b[..|b| - 1];
      MatchingConcat(a, b[..|b| - 1], topics);
    }
  }

  function Max(a: int, b: int): int { if a < b then b else a }

  /** Selecting from a numbered block is matching what lies behind the cursor. */
  lemma {:induction false} SelectIsMatching(log: seq<Event>, from: nat, since: int, topics: Option<set<string>>)
    requires Numbered(log) && from <= |log|
    ensures var k := if since < from then from else if since > |log| then |log| else since;
            Select(log[from..], since, topics) == Matching(log[k..], topics)
    decreases |log|
  {
    hide Wanted;
    if from < |log| {
      var front := log[..|log| - 1];
      assert log[from..][..|log| - from - 1] == front[from..];
      assert Numbered(front) && log[|log| - 1].id == |log|;
      hide Numbered;
      SelectIsMatching(front, from, since, topics);
      var k := if since < from then from else if since > |log| then |log| else since;
      if k < |log| {
        assert log[k..][..|log| - k - 1] == front[k..];
      } else {
        assert log[k..] == [];
      }
    } else {
      assert log[from..] == [];
    }
  }

  lemma {:induction false} MatchingHolds(events: seq<Event>, topics: Option<set<string>>, i: nat)
    requires i < |events| && Wanted(events[i], topics)
    ensures events[i] in Matching(events, topics)
    decreases |events|
  {
    hide Wanted;
    if i < |events| - 1 { MatchingHolds(events[..|events| - 1], topics, i); }
  }

  /** What the limit leaves out is older than what it keeps. */
  lemma LeftOutIsOlder(events: seq<Event>, limit: int, e: Event)
    requires Increasing(events) && e in events && e !in Newest(events, limit)
    ensures limit > 0 && |Newest(events, limit)| == limit
    ensures forall f :: f in Newest(events, limit) ==> f.id > e.id
  {
    var newest := Newest(events, limit);
    var k := |events| - |newest|;
    var front := events[..k];
    assert events == front + newest;
    var j :| 0 <= j < |front| && front[j] == e;
    forall f | f in newest ensures f.id > e.id {
      var n :| 0 <= n < |newest| && newest[n] == f;
      assert f == events[k + n];
    }
  }

  /** A snapshot in terms of the log: it holds the events that are still kept, newer than the cursor
      and of a wanted topic, in order; where the limit leaves some out, they are the oldest of these. */
  lemma SnapshotHolds(log: seq<Event>, size: nat, since: int, limit: int, topics: Option<set<string>>, i: nat)
    requires Numbered(log) && size > 0 && i < |log|
    ensures var s := SnapshotOf(log, size, since, limit, topics);
            var wanted := i + size >= |log| && i + 1 > since && (topics.None? || log[i].kind in topics.value);
            && s.latestId == |log| && (limit > 0 ==> |s.events| <= limit) && Increasing(s.events)
            && (forall e :: e in s.events ==> e in log)
            && (log[i] in s.events ==> wanted)
            && (wanted && log[i] !in s.events ==>
                  limit > 0 && |s.events| == limit && forall e :: e in s.events ==> e.id > i + 1)
  {
    hide Matching, Select, Newest, Increasing, Wanted;
    var evicted := Evicted(log, size);
    var from: nat := if since < evicted then evicted else if since > |log| then |log| else since;
    var kept := Matching(log[from..], topics);
    SelectIsMatching(log, evicted, since, topics);
    MatchingFacts(log, from, topics);
    NewestIsIncreasing(kept, limit);
    NewestComesFrom(kept, limit);
    assert log[i].id == i + 1;
    hide Numbered, SnapshotOf;
    var events := Newest(kept, limit);
    if log[i] in events { KeptIsWanted(log[i], topics); }
    if from <= i && Wanted(log[i], topics) {
      assert log[from..][i - from] == log[i];
      MatchingHolds(log[from..], topics, i - from);
      if log[i] !in events { LeftOutIsOlder(kept, limit, log[i]); }
    }
    KeptIsWanted(log[i], topics);
  }

  lemma KeptIsWanted(e: Event, topics: Option<set<string>>)
    ensures Wanted(e, topics) <==> topics.None? || e.kind in topics.value
  {}

  lemma NewestComesFrom(events: seq<Event>, limit: int)
    ensures forall e :: e in Newest(events, limit) ==> e in events
    ensures limit > 0 ==> |Newest(events, limit)| <= limit
  {}

  // ----- the polling client -----

  const POLL_LIMIT := 300

  /** The published log, the client's cursor and what it received, how much had been published at its
      last poll, and how many matching events its polls did not bring. */
  datatype World = World(log: seq<Event>, cursor: int, received: seq<Event>, polledTo: nat, lost: nat)

  datatype Action = Publish(kind: string, detail: string) | Poll

  /** `_reduce_events` on the cursor. */
  function CursorAfter(cursor: int, events: seq<Event>): int {
    if events == [] then cursor else Max(CursorAfter(cursor, events[..|events| - 1]), events[|events| - 1].id)
  }

  method ReduceEvents(cursor: int, events: seq<Event>) returns (lastEventId: int)
    ensures lastEventId == CursorAfter(cursor, events)
  {
    lastEventId := cursor;
    for i := 0 to |events|
      invariant lastEventId == CursorAfter(cursor, events[..i])
    {
      assert events[..i + 1][..i] == events[..i];
      lastEventId := Max(lastEventId, events[i].id);
    }
    assert events[..|events|] == events;
  }

  /** One action; `lost` counts the matching events published since the previous poll that a poll
      did not bring, because they were evicted or cut off by the limit. `followsOverflow` tells the
      curses client, which moves its cursor to the oldest id on overflow, from the plain one. */
  function Act(w: World, action: Action, size: nat, topics: Option<set<string>>, followsOverflow: bool): World {
    match action
    case Publish(kind, detail) => w.(log := w.log + [Event(|w.log| + 1, kind, detail)])
    case Poll =>
      var snapshot := SnapshotOf(w.log, size, w.cursor, POLL_LIMIT, topics);
      var cursor := if followsOverflow && snapshot.overflowed then snapshot.oldestId else w.cursor;
      var published := Matching(w.log[if w.polledTo <= |w.log| then w.polledTo else |w.log|..], topics);
      w.(cursor := CursorAfter(cursor, snapshot.events), received := w.received + snapshot.events,
         polledTo := |w.log|,
         lost := w.lost + (if |published| > |snapshot.events| then |published| - |snapshot.events| else 0))
  }

  function Play(actions: seq<Action>, size: nat, topics: Option<set<string>>, followsOverflow: bool): World {
    if actions == [] then World([], 0, [], 0, 0)
    else
      var before := Play(actions[..|actions| - 1], size, topics, followsOverflow);
      Act(before, actions[|actions| - 1], size, topics, followsOverflow)
  }

  predicate Increasing(events: seq<Event>) { forall i, j :: 0 <= i < j < |events| ==> events[i].id < events[j].id }

  /** Events of a numbered log that match keep their order, their place and their topic. */
  lemma {:induction false} MatchingFacts(log: seq<Event>, from: nat, topics: Option<set<string>>)
    requires Numbered(log) && from <= |log|
    ensures var m := Matching(log[from..], topics);
            && Increasing(m)
            && (forall i :: 0 <= i < |m| ==> from < m[i].id <= |log| && m[i] in log && Wanted(m[i], topics))
    decreases |log|
  {
    if from < |log| {
      var front := log[..|log| - 1];
      assert log[from..][..|log| - from - 1] == front[from..];
      MatchingFacts(front, from, topics);
    }
  }

  lemma {:induction false} CursorIsLast(cursor: int, events: seq<Event>)
    requires Increasing(events) && forall i :: 0 <= i < |events| ==> events[i].id >= cursor
    ensures CursorAfter(cursor, events) == if events == [] then cursor else events[|events| - 1].id
    decreases |events|
  {
    if events != [] { CursorIsLast(cursor, events[..|events| - 1]); }
  }

  /** Matches behind a later position are the last of those behind an earlier one. */
  lemma MatchingSplits(log: seq<Event>, from: nat, to: nat, end: nat, topics: Option<set<string>>)
    requires from <= to <= end <= |log|
    ensures Matching(log[from..end], topics) == Matching(log[from..to], topics) + Matching(log[to..end], topics)
  {
    assert log[from..end] == log[from..to] + log[to..end];
    MatchingConcat(log[from..to], log[to..end], topics);
  }

  lemma LastOf(a: seq<Event>, b: seq<Event>)
    ensures (a + b)[|a + b| - |b|..] == b
    ensures b != [] ==> (a + b)[|a + b| - 1] == b[|b| - 1]
  {}

  /** Nothing matches behind the last match. */
  lemma NothingBehindTheLast(log: seq<Event>, from: nat, to: nat, topics: Option<set<string>>)
    requires Numbered(log) && from <= to <= |log|
    requires var m := Matching(log[from..], topics); m == [] || m[|m| - 1].id <= to
    ensures Matching(log[to..], topics) == []
  {
    hide Matching;
    MatchingSplits(log, from, to, |log|, topics);
    assert log[from..|log|] == log[from..] && log[to..|log|] == log[to..];
    MatchingFacts(log, to, topics);
    LastOf(Matching(log[from..to], topics), Matching(log[to..], topics));
  }

  /** Where the client has looked up to: its cursor, or what was evicted at its last poll. */
  function Looked(w: World, size: nat): int
    requires w.polledTo <= |w.log|
  {
    Max(w.cursor, Evicted(w.log[..w.polledTo], size))
  }

  ghost predicate Invariant(w: World, size: nat, topics: Option<set<string>>) {
    && Numbered(w.log) && w.polledTo <= |w.log| && 0 <= w.cursor <= w.polledTo
    && Matching(w.log[Looked(w, size)..w.polledTo], topics) == []
    && Increasing(w.received)
    && (forall i :: 0 <= i < |w.received| ==>
          w.received[i].id <= w.cursor && w.received[i] in w.log && Wanted(w.received[i], topics))
    && |w.received| + w.lost == |Matching(w.log[..w.polledTo], topics)|
    && (w.lost == 0 ==> w.received == Matching(w.log[..w.polledTo], topics))
  }

  /** A poll brings the newest of the matching events published since the last poll. */
  lemma PollBringsTheNewest(w: World, size: nat, limit: int, topics: Option<set<string>>)
    requires Invariant(w, size, topics)
    ensures var kept := Matching(w.log[Max(Evicted(w.log, size), w.cursor)..], topics);
            var published := Matching(w.log[w.polledTo..], topics);
            && SnapshotOf(w.log, size, w.cursor, limit, topics).events == Newest(kept, limit)
            && |kept| <= |published| && kept == published[|published| - |kept|..]
  {
    hide Matching, Select, Numbered;
    var n, evicted, p := |w.log|, Evicted(w.log, size), w.polledTo;
    var from := Max(evicted, w.cursor);
    SelectIsMatching(w.log, evicted, w.cursor, topics);
    assert w.log[from..n] == w.log[from..] && w.log[p..n] == w.log[p..];
    if from <= p {
      MatchingSplits(w.log, Looked(w, size), from, p, topics);
      MatchingSplits(w.log, from, p, n, topics);
    } else {
      MatchingSplits(w.log, p, from, n, topics);
      LastOf(Matching(w.log[p..from], topics), Matching(w.log[from..], topics));
    }
  }

  lemma IncreasingConcat(a: seq<Event>, b: seq<Event>, between: int)
    requires Increasing(a) && Increasing(b)
    requires forall i :: 0 <= i < |a| ==> a[i].id <= between
    requires forall i :: 0 <= i < |b| ==> between < b[i].id
    ensures Increasing(a + b)
  {}

  lemma NewestIsIncreasing(events: seq<Event>, limit: int)
    requires Increasing(events)
    ensures Increasing(Newest(events, limit))
  {
    var newest := Newest(events, limit);
    var k := |events| - |newest|;
    forall i, j | 0 <= i < j < |newest| ensures newest[i].id < newest[j].id {
      assert newest[i] == events[k + i] && newest[j] == events[k + j];
    }
  }

  lemma NewestKeeps(events: seq<Event>, limit: int)
    ensures |Newest(events, limit)| <= |events|
    ensures forall i :: 0 <= i < |Newest(events, limit)| ==>
              Newest(events, limit)[i] == events[|events| - |Newest(events, limit)| + i]
    ensures limit > 0 && events != [] ==>
              Newest(events, limit) != [] && Newest(events, limit)[|Newest(events, limit)| - 1] == events[|events| - 1]
  {
    var newest := Newest(events, limit);
    assert newest == events[|events| - |newest|..];
    hide Newest;
  }

  /** The events a poll brings. */
  lemma PolledEvents(log: seq<Event>, from: nat, topics: Option<set<string>>)
    requires Numbered(log) && from <= |log|
    ensures var kept := Matching(log[from..], topics);
            var events := Newest(kept, POLL_LIMIT);
            && Increasing(events)
            && (forall i :: 0 <= i < |events| ==>
                  from < events[i].id <= |log| && events[i] in log && Wanted(events[i], topics)
                  && events[i].id <= events[|events| - 1].id)
            && (kept != [] ==> events != [] && events[|events| - 1] == kept[|kept| - 1])
  {
    hide Matching, Newest;
    MatchingFacts(log, from, topics);
    NewestKeeps(Matching(log[from..], topics), POLL_LIMIT);
    NewestIsIncreasing(Matching(log[from..], topics), POLL_LIMIT);
  }

  /** The cursor after a poll: on the last event it brought, or on the oldest id if the curses
      client was told of an overflow. Nothing that matches is left behind it in the buffer. */
  lemma CursorMoves(w: World, size: nat, topics: Option<set<string>>, followsOverflow: bool)
    requires size > 0 && Invariant(w, size, topics)
    ensures var v := Act(w, Poll, size, topics, followsOverflow);
            && w.cursor <= v.cursor <= |w.log|
            && Matching(w.log[Max(v.cursor, Evicted(w.log, size))..], topics) == []
            && (forall i :: |w.received| <= i < |v.received| ==> w.cursor < v.received[i].id <= v.cursor)
            && Increasing(v.received)
  {
    hide Matching, SnapshotOf, Newest, Increasing, Numbered, CursorAfter;
    var evicted := Evicted(w.log, size);
    var from := Max(evicted, w.cursor);
    var events := Newest(Matching(w.log[from..], topics), POLL_LIMIT);
    PollBringsTheNewest(w, size, POLL_LIMIT, topics);
    OldestIsAfterTheEvicted(w.log, size, w.cursor, POLL_LIMIT, topics);
    PolledEvents(w.log, from, topics);
    var start := if followsOverflow && w.cursor < evicted then evicted + 1 else w.cursor;
    CursorIsLast(start, events);
    IncreasingConcat(w.received, events, w.cursor);
    NothingBehindTheLast(w.log, from, Max(CursorAfter(start, events), evicted), topics);
  }

  lemma PollKeepsInvariant(w: World, size: nat, topics: Option<set<string>>, followsOverflow: bool)
    requires size > 0 && Invariant(w, size, topics)
    ensures Invariant(Act(w, Poll, size, topics, followsOverflow), size, topics)
  {
    hide Matching, SnapshotOf, Newest, Increasing, Numbered, CursorAfter;
    var v := Act(w, Poll, size, topics, followsOverflow);
    var n, from := |w.log|, Max(Evicted(w.log, size), w.cursor);
    CursorMoves(w, size, topics, followsOverflow);
    PollBringsTheNewest(w, size, POLL_LIMIT, topics);
    PolledEvents(w.log, from, topics);
    MatchingSplits(w.log, 0, w.polledTo, n, topics);
    assert w.log[..n] == w.log[0..n] && w.log[w.polledTo..n] == w.log[w.polledTo..];
    assert w.log[..w.polledTo] == w.log[0..w.polledTo];
    assert v.log[Looked(v, size)..v.polledTo] == w.log[Max(v.cursor, Evicted(w.log, size))..];
    NewestIsAll(Matching(w.log[from..], topics), Matching(w.log[w.polledTo..], topics));
  }

  /** If a poll brought as many events as were published, it brought those. */
  lemma NewestIsAll(kept: seq<Event>, published: seq<Event>)
    requires |kept| <= |published| && kept == published[|published| - |kept|..]
    ensures |Newest(kept, POLL_LIMIT)| <= |published|
    ensures |Newest(kept, POLL_LIMIT)| == |published| ==> Newest(kept, POLL_LIMIT) == published
  {}

  lemma PublishKeepsInvariant(w: World, kind: string, detail: string, size: nat, topics: Option<set<string>>,
                              followsOverflow: bool)
    requires Invariant(w, size, topics)
    ensures Invariant(Act(w, Publish(kind, detail), size, topics, followsOverflow), size, topics)
  {
    hide Matching, Increasing;
    var v := Act(w, Publish(kind, detail), size, topics, followsOverflow);
    assert v.log[..v.polledTo] == w.log[..w.polledTo];
    assert v.log[Looked(v, size)..v.polledTo] == w.log[Looked(w, size)..w.polledTo];
  }

  lemma {:induction false} PlayKeepsInvariant(actions: seq<Action>, size: nat, topics: Option<set<string>>,
                                              followsOverflow: bool)
    requires size > 0
    ensures Invariant(Play(actions, size, topics, followsOverflow), size, topics)
    decreases |actions|
  {
    if actions != [] {
      hide Invariant, Act;
      PlayKeepsInvariant(actions[..|actions| - 1], size, topics, followsOverflow);
      var w := Play(actions[..|actions| - 1], size, topics, followsOverflow);
      match actions[|actions| - 1]
      case Publish(kind, detail) => PublishKeepsInvariant(w, kind, detail, size, topics, followsOverflow);
      case Poll => PollKeepsInvariant(w, size, topics, followsOverflow);
    }
  }

  lemma {:induction false} NothingMatches(events: seq<Event>, topics: Option<set<string>>)
    ensures Matching(events, topics) == [] <==> forall i :: 0 <= i < |events| ==> !Wanted(events[i], topics)
    decreases |events|
  {
    hide Wanted;
    if events != [] {
      var front, last := events[..|events| - 1], |events| - 1;
      NothingMatches(front, topics);
      assert forall i :: 0 <= i < last ==> front[i] == events[i];
    }
  }

  /** A poll at this moment brings all: no matching event newer than the last poll has been evicted,
      and the limit has room for those published since. */
  predicate Caught(w: World, size: nat, topics: Option<set<string>>) {
    && (forall i :: w.polledTo <= i < Evicted(w.log, size) ==> !Wanted(w.log[i], topics))
    && |Matching(w.log[if w.polledTo <= |w.log| then w.polledTo else |w.log|..], topics)| <= POLL_LIMIT
  }

  lemma GoneMatches(log: seq<Event>, from: nat, to: nat, topics: Option<set<string>>)
    requires from <= to <= |log|
    ensures |Matching(log[to..], topics)| == |Matching(log[from..], topics)|
            <==> forall i :: from <= i < to ==> !Wanted(log[i], topics)
  {
    hide Matching, Wanted;
    MatchingSplits(log, from, to, |log|, topics);
    assert log[to..|log|] == log[to..] && log[from..|log|] == log[from..];
    var gone := log[from..to];
    NothingMatches(gone, topics);
    assert forall i :: 0 <= i < |gone| ==> gone[i] == log[from + i];
    assert forall i :: from <= i < to ==> log[i] == gone[i - from];
  }

  /** What is kept is all that was published since the last poll, exactly if nothing matching among
      it was evicted. */
  lemma KeptIsAll(w: World, size: nat, topics: Option<set<string>>)
    requires Invariant(w, size, topics)
    ensures var kept := Matching(w.log[Max(Evicted(w.log, size), w.cursor)..], topics);
            |kept| == |Matching(w.log[w.polledTo..], topics)|
            <==> forall i :: w.polledTo <= i < Evicted(w.log, size) ==> !Wanted(w.log[i], topics)
  {
    PollBringsTheNewest(w, size, POLL_LIMIT, topics);
    var n, evicted, p := |w.log|, Evicted(w.log, size), w.polledTo;
    var from := Max(evicted, w.cursor);
    assert 0 <= w.cursor <= p <= n && evicted <= n;
    hide Matching, Wanted, Select, SnapshotOf, Invariant, Newest;
    if evicted <= p {
      MatchingSplits(w.log, from, p, n, topics);
      assert w.log[from..n] == w.log[from..] && w.log[p..n] == w.log[p..];
    } else {
      GoneMatches(w.log, p, evicted, topics);
    }
  }

  lemma PollLosesNothing(w: World, size: nat, topics: Option<set<string>>, followsOverflow: bool)
    requires Invariant(w, size, topics)
    ensures Act(w, Poll, size, topics, followsOverflow).lost >= w.lost
    ensures Act(w, Poll, size, topics, followsOverflow).lost == w.lost <==> Caught(w, size, topics)
  {
    PollBringsTheNewest(w, size, POLL_LIMIT, topics);
    KeptIsAll(w, size, topics);
    hide Matching, Numbered, Increasing, Wanted, Select, SnapshotOf, CursorAfter;
  }

  /** All polls of a run caught everything. */
  predicate AllCaught(actions: seq<Action>, size: nat, topics: Option<set<string>>, followsOverflow: bool) {
    actions == []
    || (var front := actions[..|actions| - 1];
        && AllCaught(front, size, topics, followsOverflow)
        && (actions[|actions| - 1].Poll? ==> Caught(Play(front, size, topics, followsOverflow), size, topics)))
  }

  lemma {:induction false} LostIsNotCaught(actions: seq<Action>, size: nat, topics: Option<set<string>>,
                                           followsOverflow: bool)
    requires size > 0
    ensures Play(actions, size, topics, followsOverflow).lost == 0
            <==> AllCaught(actions, size, topics, followsOverflow)
    decreases |actions|
  {
    hide Matching, SnapshotOf, Numbered, Increasing, Caught;
    if actions != [] {
      var front := actions[..|actions| - 1];
      LostIsNotCaught(front, size, topics, followsOverflow);
      PlayKeepsInvariant(front, size, topics, followsOverflow);
      if actions[|actions| - 1].Poll? {
        PollLosesNothing(Play(front, size, topics, followsOverflow), size, topics, followsOverflow);
      }
    }
  }

  /** Main result, for every interleaving of publishes and polls and for both clients: what the
      client has received is in order and without repetition; it is every matching event up to its
      last poll if and only if at each poll no matching event newer than the poll before had been
      evicted and at most POLL_LIMIT matched; and otherwise `lost` is exactly what is missing. */
  lemma ClientReceivesEverything(actions: seq<Action>, size: nat, topics: Option<set<string>>, followsOverflow: bool)
    requires size > 0
    ensures var w := Play(actions, size, topics, followsOverflow);
            && w.polledTo <= |w.log|
            && Increasing(w.received)
            && (forall i :: 0 <= i < |w.received| ==> w.received[i] in w.log && Wanted(w.received[i], topics))
            && |w.received| + w.lost == |Matching(w.log[..w.polledTo], topics)|
            && (w.received == Matching(w.log[..w.polledTo], topics)
                <==> AllCaught(actions, size, topics, followsOverflow))
  {
    hide Play, Matching, Increasing, AllCaught;
    PlayKeepsInvariant(actions, size, topics, followsOverflow);
    LostIsNotCaught(actions, size, topics, followsOverflow);
  }

  /** A poll is quiet when it neither reports an overflow nor is cut by the limit. */
  predicate Quiet(w: World, size: nat, topics: Option<set<string>>) {
    && !SnapshotOf(w.log, size, w.cursor, POLL_LIMIT, topics).overflowed
    && |Select(Buffer(w.log, size), w.cursor, topics)| <= POLL_LIMIT
  }

  /** With nothing evicted behind the cursor, all that matches since the last poll is kept. */
  lemma NothingMissed(w: World, size: nat, topics: Option<set<string>>)
    requires Invariant(w, size, topics) && Evicted(w.log, size) <= w.cursor
    ensures Matching(w.log[w.cursor..], topics) == Matching(w.log[w.polledTo..], topics)
  {
    hide Matching, Numbered, Increasing, Wanted;
    MatchingSplits(w.log, w.cursor, w.polledTo, |w.log|, topics);
    assert Looked(w, size) == w.cursor;
    assert w.log[w.polledTo..|w.log|] == w.log[w.polledTo..] && w.log[w.cursor..|w.log|] == w.log[w.cursor..];
  }

  lemma QuietPollLosesNothing(w: World, size: nat, topics: Option<set<string>>, followsOverflow: bool)
    requires size > 0 && Invariant(w, size, topics) && Quiet(w, size, topics)
    ensures Act(w, Poll, size, topics, followsOverflow).lost == w.lost
  {
    OldestIsAfterTheEvicted(w.log, size, w.cursor, POLL_LIMIT, topics);
    NothingMissed(w, size, topics);
    SelectIsMatching(w.log, Evicted(w.log, size), w.cursor, topics);
    hide Matching, Numbered, Increasing, Select, Wanted, CursorAfter;
    assert Newest(Select(Buffer(w.log, size), w.cursor, topics), POLL_LIMIT) == Matching(w.log[w.polledTo..], topics);
  }

  predicate QuietRun(actions: seq<Action>, size: nat, topics: Option<set<string>>, followsOverflow: bool) {
    actions == []
    || (var front := actions[..|actions| - 1];
        && QuietRun(front, size, topics, followsOverflow)
        && (actions[|actions| - 1].Poll? ==> Quiet(Play(front, size, topics, followsOverflow), size, topics)))
  }

  lemma {:induction false} QuietRunIsCaught(actions: seq<Action>, size: nat, topics: Option<set<string>>,
                                            followsOverflow: bool)
    requires size > 0 && QuietRun(actions, size, topics, followsOverflow)
    ensures AllCaught(actions, size, topics, followsOverflow)
    decreases |actions|
  {
    hide Matching, SnapshotOf, Numbered, Increasing, Quiet, Caught, Play;
    if actions != [] {
      var front := actions[..|actions| - 1];
      QuietRunIsCaught(front, size, topics, followsOverflow);
      PlayKeepsInvariant(front, size, topics, followsOverflow);
      if actions[|actions| - 1].Poll? {
        var w := Play(front, size, topics, followsOverflow);
        QuietPollLosesNothing(w, size, topics, followsOverflow);
        PollLosesNothing(w, size, topics, followsOverflow);
      }
    }
  }

  /** A run whose polls all reported no overflow and were not cut by the limit has brought the client
      every matching event up to its last poll, once and in order. */
  lemma QuietRunReceivesEverything(actions: seq<Action>, size: nat, topics: Option<set<string>>, followsOverflow: bool)
    requires size > 0 && QuietRun(actions, size, topics, followsOverflow)
    ensures var w := Play(actions, size, topics, followsOverflow);
            w.polledTo <= |w.log| && w.received == Matching(w.log[..w.polledTo], topics)
  {
    hide Play, Matching, Increasing, AllCaught, QuietRun;
    QuietRunIsCaught(actions, size, topics, followsOverflow);
    ClientReceivesEverything(actions, size, topics, followsOverflow);
  }
}

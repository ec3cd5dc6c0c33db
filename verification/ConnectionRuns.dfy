/** A whole connection of the selectors engine, from accept to close: what its answers and its
    bytes are for every sequence of events the selector loop can deliver. */
module ConnectionRuns {
  import opened Wrappers
  import opened ByteStrings
  import opened Framer
  import opened Engine
  import opened Responses
  import opened Connection
  import EngineTheorems

  /** What happens to the connection: the selector reports it readable or writable, the sweep
      finds it idle for too long, or the loop ends. */
  datatype Event = Readable(received: Received) | Writable | Idle | LoopEnds

  /** What an event does to the read side. */
  function ReadStep(env: Env, s: ReadState, event: Event): ReadState {
    if s.closing then s
    else
      match event
      case Readable(Bytes(data)) => if data == [] then s.(closing := true) else ReadEvent(env, s, data)
      case Idle => s.(answers := s.answers + [Rejected(408)], closing := true)
      case _ => s
  }

  /** The read side after some events that find it in state `s`. */
  function ReadSide(env: Env, s: ReadState, events: seq<Event>): ReadState {
    if events == [] then s else ReadStep(env, ReadSide(env, s, events[..|events| - 1]), events[|events| - 1])
  }

  // ----- the input of a connection -----

  datatype Ending = Listening | PeerClosed | TimedOut

  /** The first event that ends the input. */
  function EndingOf(events: seq<Event>): Ending {
    if events == [] then Listening
    else if EndingOf(events[..|events| - 1]) != Listening then EndingOf(events[..|events| - 1])
    else
      match events[|events| - 1]
      case Readable(Bytes(data)) => if data == [] then PeerClosed else Listening
      case Idle => TimedOut
      case _ => Listening
  }

  /** The reads before that event. */
  function Deliveries(events: seq<Event>): seq<Bytes> {
    if events == [] then []
    else
      var before := Deliveries(events[..|events| - 1]);
      match events[|events| - 1]
      case Readable(Bytes(data)) =>
        if data != [] && EndingOf(events[..|events| - 1]) == Listening then before + [data] else before
      case _ => before
  }

  lemma {:induction false} ReadSideIsARun(env: Env, s: ReadState, events: seq<Event>)
    requires !s.closing
    ensures var run := SelectorRun(env, s, Deliveries(events));
            ReadSide(env, s, events)
            == if run.closing || EndingOf(events) == Listening then run
               else if EndingOf(events) == PeerClosed then run.(closing := true)
               else run.(closing := true, answers := run.answers + [Rejected(408)])
    decreases |events|
  {
    hide SelectorRun, ReadEvent;
    if events == [] {
      ClosedRunStops(env, s, []);
    } else {
      var front, last := events[..|events| - 1], events[|events| - 1];
      ReadSideIsARun(env, s, front);
      if last.Readable? && last.received.Bytes? {
        EngineTheorems.RunSnoc(env, s, Deliveries(front), last.received.data);
      }
    }
  }

  /** The answers of a connection are those of one fold over the bytes delivered, or, if a read took
      the buffer over the limit, some of them and a 413; a 408 follows if the sweep ended the input
      of a connection that was still open for requests. */
  lemma ReadSideIsFold(env: Env, events: seq<Event>)
    requires UnsignedStream(env, Flatten(Deliveries(events)), 0)
    ensures var pieces := Deliveries(events);
            var f, s := Fold(env, Flatten(pieces), 0), ReadSide(env, START, events);
            var cut := CutShortAt(env, [], 0, pieces);
            var closed := f.closed || cut.Some?;
            && (cut.Some? ==> cut.value <= |f.answers|)
            && s.answers == (if cut.Some? then f.answers[..cut.value] + [Rejected(413)] else f.answers)
                            + (if EndingOf(events) == TimedOut && !closed then [Rejected(408)] else [])
            && s.closing == (closed || EndingOf(events) != Listening)
            && (cut.None? <==> WithinLimit(env, [], 0, pieces, MAX_REQUEST_BYTES) || RefusedAnyway(env, [], 0, pieces))
  {
    hide SelectorRun, Fold, WithinLimit, RefusedAnyway, CutShortAt, ReadSide, Deliveries, EndingOf, UnsignedStream;
    var pieces := Deliveries(events);
    ReadSideIsARun(env, START, events);
    RunUnderTheGuard(env, pieces);
    NotCutShort(env, [], 0, pieces);
    var run := SelectorRun(env, START, pieces);
    assert run.answers + [] == run.answers;
  }

  /** However the input of a connection ends, the blocking engine answers the same bytes as the
      selectors engine with its idle sweep, but for a message the peer leaves unfinished when it
      closes, which only the blocking one answers. */
  lemma EndingsAgree(env: Env, events: seq<Event>)
    requires UnsignedStream(env, Flatten(Deliveries(events)), 0)
    ensures var pieces, s := Deliveries(events), ReadSide(env, START, events);
            match EndingOf(events)
            case Listening => BlockingAnswers(env, pieces, Silence) == s.answers
            case TimedOut => BlockingAnswers(env, pieces, TimeOut) == s.answers
            case PeerClosed =>
              var run := SelectorRun(env, START, pieces);
              BlockingAnswers(env, pieces, EndOfStream)
              == s.answers + if run.closing || run.buffer == [] then [] else [Rejected(400)]
  {
    hide SelectorRun, Fold, ReadSide, Deliveries, EndingOf, UnsignedStream, BlockingAnswers, BlockingRun, WithinLimit;
    var pieces := Deliveries(events);
    ReadSideIsARun(env, START, events);
    EngineTheorems.SilentPeers(env, pieces);
    EngineTheorems.EnginesAgreeAtEof(env, pieces);
    assert SelectorRun(env, START, pieces).answers + [] == SelectorRun(env, START, pieces).answers;
  }

  // ----- no minus sign in any read -----

  lemma {:induction false} DeliveriesGrow(events: seq<Event>, n: nat)
    requires n <= |events|
    ensures Deliveries(events[..n]) <= Deliveries(events)
    decreases |events|
  {
    if n < |events| {
      var front := events[..|events| - 1];
      DeliveriesGrow(front, n);
      assert front[..n] == events[..n];
    } else {
      assert events[..n] == events;
    }
  }

  /** A read in the middle of unsigned reads reaches no minus sign. */
  lemma {:induction false} ReadIsUnsigned(env: Env, s: ReadState, before: seq<Bytes>, data: Bytes, after: seq<Bytes>)
    requires !s.closing && Extract(s.buffer).Incomplete?
    requires Unsigned(env, s.buffer, s.served, before + [data] + after)
    ensures var d := SelectorRun(env, s, before); !d.closing ==> Unsigned(env, d.buffer + data, d.served, [])
    decreases |before|
  {
    hide Extract, Unsigned, Drain;
    var all := before + [data] + after;
    UnsignedStep(env, s.buffer, s.served, all);
    if before == [] {
      assert all[0] == data && all[1..] == after;
      UnsignedFewer(env, s.buffer + data, s.served, after);
    } else {
      assert all[0] == before[0] && all[1..] == before[1..] + [data] + after;
      var grown := s.(buffer := s.buffer + before[0]);
      UnsignedDrain(env, grown, all[1..]);
      var d := ReadEvent(env, s, before[0]);
      if d.closing {
        ClosedRunStops(env, d, before[1..]);
      } else {
        ReadIsUnsigned(env, d, before[1..], data, after);
      }
    }
  }

  /** Nothing in the reads to come reaches a minus sign. */
  predicate UnsignedFrom(env: Env, s: ReadState, events: seq<Event>) {
    s.closing || (Extract(s.buffer).Incomplete? && Unsigned(env, s.buffer, s.served, Deliveries(events)))
  }

  /** What the read handler asks of a read, from what is asked of all of them. */
  lemma NextReadIsUnsigned(env: Env, s: ReadState, events: seq<Event>, n: nat)
    requires n < |events| && !s.closing && UnsignedFrom(env, s, events)
    requires events[n].Readable? && events[n].received.Bytes? && !ReadSide(env, s, events[..n]).closing
    ensures var d := ReadSide(env, s, events[..n]);
            Unsigned(env, d.buffer + events[n].received.data, d.served, [])
  {
    hide SelectorRun, Unsigned, ReadSide, Extract;
    var data, before := events[n].received.data, Deliveries(events[..n]);
    ReadSideIsARun(env, s, events[..n]);
    if data == [] {
      DeliveriesGrow(events, n);
      var after := Deliveries(events)[|before|..];
      assert before + after == Deliveries(events);
      WaitingIsUnsigned(env, s, before, after);
      assert SelectorRun(env, s, before).buffer + data == SelectorRun(env, s, before).buffer;
    } else {
      DeliveriesGrow(events, n + 1);
      assert events[..n + 1][..n] == events[..n];
      assert Deliveries(events[..n + 1]) == before + [data];
      var after := Deliveries(events)[|before| + 1..];
      assert before + [data] + after == Deliveries(events);
      ReadIsUnsigned(env, s, before, data, after);
    }
  }

  lemma {:induction false} WaitingIsUnsigned(env: Env, s: ReadState, before: seq<Bytes>, after: seq<Bytes>)
    requires !s.closing && Extract(s.buffer).Incomplete?
    requires Unsigned(env, s.buffer, s.served, before + after)
    ensures var d := SelectorRun(env, s, before); !d.closing ==> Unsigned(env, d.buffer, d.served, [])
    decreases |before|
  {
    hide Extract, Unsigned, Drain;
    UnsignedStep(env, s.buffer, s.served, before + after);
    if before == [] {
      UnsignedFewer(env, s.buffer, s.served, before + after);
    } else {
      var all := before + after;
      assert all[0] == before[0] && all[1..] == before[1..] + after;
      UnsignedDrain(env, s.(buffer := s.buffer + before[0]), all[1..]);
      var d := ReadEvent(env, s, before[0]);
      if d.closing {
        ClosedRunStops(env, d, before[1..]);
      } else {
        WaitingIsUnsigned(env, d, before[1..], after);
      }
    }
  }

  // ----- one event -----

  /** What the selector loop does with one event. */
  method HandleEvent(connection: ConnectionState, event: Event, env: Env)
    requires connection.Valid()
    requires connection.open && !connection.closing && event.Readable? && event.received.Bytes? ==>
               Unsigned(env, connection.recvBuffer + event.received.data, connection.requestsServed, [])
    modifies connection, connection.socket, connection.enqueued
    ensures connection.Valid()
    ensures connection.View() == if old(connection.failed) then old(connection.View())
                                 else ReadStep(env, old(connection.View()), event)
    ensures connection.failed ==>
              old(connection.failed) || connection.socket.broken || event == LoopEnds || event == Readable(ReadFailed)
    ensures old(connection.socket.broken) ==> connection.socket.broken
    ensures old(connection.failed) ==> connection.failed
    ensures forall i :: 0 <= i < |connection.enqueued| ==>
              connection.enqueued[i] in old(connection.enqueued) || fresh(connection.enqueued[i])
    ensures old(connection.Stuck()) ==>
              && connection.finished == old(connection.finished) && connection.finalBytes == old(connection.finalBytes)
              && (connection.open ==> connection.Stuck())
    ensures !old(connection.open) ==>
              !connection.open && connection.finished == old(connection.finished)
              && connection.finalBytes == old(connection.finalBytes)
  {
    hide ConnectionState.Core, ReadEvent, ConnectionState.Stuck, Unsigned;
    connection.ClosedMeansDone();
    if connection.open {
      match event {
        case Readable(received) =>
          if connection.wantsRead { connection.HandleRead(received, env); }
        case Writable =>
          if connection.wantsWrite { connection.HandleWrite(); }
        case Idle =>
          connection.SweepIdle();
        case LoopEnds =>
          connection.Shutdown();
      }
    }
  }

  // ----- a whole connection -----

  /** Any events, from any state of a connection. An empty view is first in line only for a stream
      with an empty chunk; once it is, no later event finishes a response or sends a response byte,
      whatever the network does. Only other responses are ever completed. */
  method HandleEvents(connection: ConnectionState, env: Env, events: seq<Event>) returns (ghost heard: nat)
    requires connection.Valid() && UnsignedFrom(env, connection.View(), events)
    modifies connection, connection.socket, connection.enqueued
    ensures connection.Valid()
    ensures heard <= |events| && (!connection.failed ==> heard == |events|)
    ensures connection.View() == ReadSide(env, old(connection.View()), events[..heard])
    ensures connection.failed ==>
              old(connection.failed) || connection.socket.broken || LoopEnds in events || Readable(ReadFailed) in events
    ensures old(connection.Stuck()) ==>
              connection.finished == old(connection.finished) && connection.finalBytes == old(connection.finalBytes)
    ensures connection.Stuck() ==>
              connection.finished < |connection.answers|
              && !Sendable(connection.render(connection.answers[connection.finished]))
    ensures connection.finished <= |connection.answers|
    ensures forall i :: 0 <= i < connection.finished ==> Sendable(connection.render(connection.answers[i]))
    ensures !connection.open && !connection.failed ==> connection.finished == |connection.answers|
  {
    hide Sendable;
    hide ConnectionState.Core, ReadEvent, Unsigned, UnsignedFrom, Deliveries, ConnectionState.Stuck, ReadStep;
    ghost var s := connection.View();
    heard := 0;
    for n := 0 to |events|
      invariant connection.Valid()
      invariant heard <= n && (!connection.failed ==> heard == n)
      invariant connection.View() == ReadSide(env, s, events[..heard])
      invariant connection.failed ==>
                  old(connection.failed) || connection.socket.broken || LoopEnds in events
                  || Readable(ReadFailed) in events
      invariant forall i :: 0 <= i < |connection.enqueued| ==>
                  connection.enqueued[i] in old(connection.enqueued) || fresh(connection.enqueued[i])
      invariant old(connection.Stuck()) ==>
                  && connection.finished == old(connection.finished)
                  && connection.finalBytes == old(connection.finalBytes)
                  && (connection.open ==> connection.Stuck())
    {
      connection.ClosedMeansDone();
      if !connection.failed {
        assert events[..n + 1][..n] == events[..n];
        heard := n + 1;
        if !connection.closing && events[n].Readable? && events[n].received.Bytes? {
          ClosingStays(env, s, events[..n]);
          NextReadIsUnsigned(env, s, events, n);
        }
      }
      HandleEvent(connection, events[n], env);
    }
    connection.OnlySendableFinish();
  }

  lemma {:induction false} ClosingStays(env: Env, s: ReadState, events: seq<Event>)
    ensures s.closing ==> ReadSide(env, s, events).closing
    decreases |events|
  {
    hide ReadEvent;
    if events != [] { ClosingStays(env, s, events[..|events| - 1]); }
  }

  /** Main result for a connection: for every sequence of events, every way the stream is cut and
      every way the network takes the bytes, the answers are those of the events up to `heard` (all
      of them unless the connection was cut short, which only an I/O error, a refusal of the
      selector or the end of the loop can do), and the response bytes sent are a prefix of their
      wire forms in order, all of them once the connection has closed by itself. It does that only
      if no answer is a stream with an empty chunk: such a response is never completed, and no other
      ever gets stuck. The wire carries the bytes of the responses and those of the interim
      responses, each in their order, and nothing else. */
  method ServeConnection(socket: Socket, canSendfile: bool, render: Answer -> HTTPResponse, env: Env,
                         events: seq<Event>)
    returns (connection: ConnectionState, ghost heard: nat)
    requires socket.wire == [] && Unsigned(env, [], 0, Deliveries(events))
    modifies socket
    ensures connection.socket == socket && connection.render == render && connection.Valid()
    ensures heard <= |events| && (!connection.failed ==> heard == |events|)
    ensures connection.View() == ReadSide(env, START, events[..heard])
    ensures connection.failed ==> socket.broken || LoopEnds in events || Readable(ReadFailed) in events
    ensures connection.finalBytes <= Wire(render, connection.answers)
    ensures !connection.open && !connection.failed ==> connection.finalBytes == Wire(render, connection.answers)
    ensures connection.Stuck() ==>
              connection.finished < |connection.answers| && !Sendable(render(connection.answers[connection.finished]))
    ensures forall i :: 0 <= i < connection.finished <= |connection.answers| ==> Sendable(render(connection.answers[i]))
    ensures !connection.open && !connection.failed ==>
              forall i :: 0 <= i < |connection.answers| ==> Sendable(render(connection.answers[i]))
    ensures IsMerge(socket.wire, connection.rawSent, connection.finalBytes)
    ensures connection.rawSent <= Continues(|connection.interim|)
    ensures connection.interim == [] ==> socket.wire == connection.finalBytes
  {
    hide ConnectionState.Core, ToBytes, Wire, Unsigned, Deliveries, IsMerge, ReadSide, Sendable, ConnectionState.Stuck;
    EmptyIsIncomplete();
    connection := new ConnectionState(socket, canSendfile, render);
    heard := HandleEvents(connection, env, events);
    connection.SentBytes();
  }
}

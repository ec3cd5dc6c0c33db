/** One connection of the selectors engine: the response being written, the queue behind it, the
    read, write and idle handlers, and the closing protocol (`server.py`). */
module Connection {
  import opened Wrappers
  import opened ByteStrings
  import opened Framer
  import opened Engine
  import opened Responses
  import Chunked

  const WRITE_CHUNK_SIZE := 16_384

  /** How one step on a response ended: go on at once, wait for the next write event, give up
      the connection, or nothing is left to send. */
  datatype Progress = Again | Wait | Broken | Finished

  // ----- one queued response -----

  class OutboundResponse {
    const response: HTTPResponse
    const requestId: nat
    const closeAfter: bool
    var pendingChunks: seq<Bytes>
    var streamIter: Option<seq<Bytes>>  // what the encoder will still yield
    var fileOpen: bool
    var fileRemaining: nat
    var fileOffset: nat                 // for sendfile
    var filePosition: nat               // for read
    var bytesSent: nat
    ghost var emitted: Bytes            // what the socket has taken of this response

    /** What is still to be sent: memory views, then the stream or the tail of the file. */
    ghost function Owed(): Bytes
      reads this
    {
      Flatten(pendingChunks) + Later()
    }

    ghost function Later(): Bytes
      reads this`streamIter, this`fileOpen, this`fileRemaining
    {
      if streamIter.Some? then Flatten(streamIter.value)
      else if fileOpen && response.payload.File? && fileRemaining <= |response.payload.content|
      then response.payload.content[|response.payload.content| - fileRemaining..] else []
    }

    /** An empty view is waiting, or the encoder will still yield one. */
    ghost predicate HoldsEmpty()
      reads `pendingChunks, `streamIter
    {
      [] in pendingChunks || (streamIter.Some? && [] in streamIter.value)
    }

    ghost predicate Valid(canSendfile: bool)
      reads this
    {
      && emitted + Owed() == ToBytes(response)
      && bytesSent == |emitted|
      && (HoldsEmpty() <==> !Sendable(response))
      && (fileRemaining > 0 ==> fileOpen)
      && (fileOpen ==>
            && response.payload.File? && streamIter.None?
            && fileRemaining + (if canSendfile then fileOffset else filePosition) == |response.payload.content|)
    }

    ghost function Measure(): nat
      reads this
    {
      |pendingChunks| + (if streamIter.Some? then 2 * |streamIter.value| + 2 else 0) + 2 * fileRemaining
      + (if fileOpen then 1 else 0)
    }

    /** `OutboundResponse.from_http_response` */
    constructor (response: HTTPResponse, requestId: nat, closeAfter: bool, ghost canSendfile: bool)
      ensures this.response == response && this.requestId == requestId && this.closeAfter == closeAfter
      ensures emitted == [] && Valid(canSendfile)
    {
      this.response, this.requestId, this.closeAfter := response, requestId, closeAfter;
      emitted, bytesSent, fileOffset, filePosition := [], 0, 0, 0;
      var payload := response.payload;
      var head := ResponseHead(response);
      pendingChunks := if payload.Body? && payload.bytes != [] then [head, payload.bytes] else [head];
      streamIter := if payload.Stream? then Some(Chunked.EncodePieces(payload.chunks)) else None;
      fileOpen := payload.File?;
      fileRemaining := if payload.File? then |payload.content| else 0;
      new;
      assert |ResponseHead(response)| > 0;
      if payload.Stream? { EmptyPieces(payload.chunks); }
      hide ResponseHead, Chunked.EncodePieces, Chunked.AllFilled;
      FlattenOne(ResponseHead(response));
      if payload.Body? { FlattenTwo(ResponseHead(response), payload.bytes); }
      assert Owed() == ToBytes(response);
      assert [] + Owed() == Owed();
    }

    method CloseResources()
      modifies this`fileOpen
      ensures !fileOpen
    {
      fileOpen := false;
    }

    /** Offer the first pending view to the socket. */
    method SendPending(socket: Socket, canSendfile: bool) returns (r: Progress, ghost taken: Bytes)
      requires Valid(canSendfile) && pendingChunks != []
      modifies this, socket
      ensures Valid(canSendfile) && !r.Finished?
      ensures emitted == old(emitted) + taken && socket.wire == old(socket.wire) + taken
      ensures r.Again? ==> Measure() < old(Measure()) && taken != []
      ensures old(pendingChunks[0]) == [] ==> !r.Again? && unchanged(this)
      ensures pendingChunks == [] ==> r.Again?
      ensures socket.offers == old(socket.offers) + 1 && (r.Wait? ==> socket.stalled || old(pendingChunks[0]) == [])
      ensures socket.broken == (old(socket.broken) || r.Broken?)
    {
      hide ToBytes, Later, Sendable;
      var view, rest := pendingChunks[0], pendingChunks[1..];
      assert pendingChunks == [view] + rest;
      taken := [];
      var sent := socket.Send(view);
      if sent.WouldBlock? { return Wait, taken; }
      if sent.SendFailed? { return Broken, taken; }
      if sent.count == 0 { return Wait, taken; }
      bytesSent := bytesSent + sent.count;
      TakeFrom(emitted, view, Flatten(rest), Later(), sent.count);
      taken := view[..sent.count];
      emitted := emitted + taken;
      if sent.count < |view| {
        pendingChunks := [view[sent.count..]] + rest;
        assert pendingChunks[1..] == rest;
        return Wait, taken;
      }
      pendingChunks := rest;
      return Again, taken;
    }

    /** Take the next piece from the encoder. */
    method PullStream(canSendfile: bool)
      requires Valid(canSendfile) && pendingChunks == [] && streamIter.Some?
      modifies this
      ensures Valid(canSendfile) && emitted == old(emitted) && Measure() < old(Measure())
      ensures old(streamIter.value) != [] ==> pendingChunks == [old(streamIter.value)[0]]
    {
      hide ToBytes, Sendable;
      var pieces := streamIter.value;
      if pieces == [] {
        streamIter := None;
      } else {
        streamIter := Some(pieces[1..]);
        pendingChunks := [pieces[0]];
        FlattenOne(pieces[0]);
      }
    }

    lemma OwedInFile()
      requires pendingChunks == [] && streamIter.None? && fileOpen
      requires response.payload.File? && fileRemaining <= |response.payload.content|
      ensures Owed() == response.payload.content[|response.payload.content| - fileRemaining..]
    {}

    lemma OwedChunkAndFile(part: Bytes)
      requires pendingChunks == [part] && streamIter.None? && fileOpen
      requires response.payload.File? && fileRemaining <= |response.payload.content|
      ensures Owed() == part + response.payload.content[|response.payload.content| - fileRemaining..]
    {
      FlattenOne(part);
    }

    /** The socket has taken the next `n` bytes of the file. */
    method CountFileBytes(n: nat, ghost taken: Bytes)
      requires Valid(true) && pendingChunks == [] && fileOpen && n <= fileRemaining
      requires taken == response.payload.content[fileOffset..fileOffset + n]
      modifies this
      ensures Valid(true) && emitted == old(emitted) + taken && fileRemaining == old(fileRemaining) - n
      ensures pendingChunks == [] && streamIter.None? && fileOpen
    {
      hide ToBytes, OutboundResponse.Owed;
      ghost var content := response.payload.content;
      OwedInFile();
      TakeTail(emitted, content, fileOffset, n);
      emitted := emitted + taken;
      bytesSent := bytesSent + n;
      fileOffset := fileOffset + n;
      fileRemaining := fileRemaining - n;
      OwedInFile();
    }

    /** Send the next part of the file from the file itself. */
    method SendFilePart(socket: Socket) returns (r: Progress, ghost taken: Bytes)
      requires Valid(true) && pendingChunks == [] && streamIter.None? && fileOpen && fileRemaining > 0
      modifies this, socket
      ensures Valid(true) && !r.Finished?
      ensures emitted == old(emitted) + taken && socket.wire == old(socket.wire) + taken
      ensures r.Again? ==> Measure() < old(Measure())
      ensures socket.offers == old(socket.offers) + 1 && (r.Wait? ==> socket.stalled || taken != [])
      ensures socket.broken == (old(socket.broken) || r.Broken?)
    {
      hide ToBytes;
      var count := if WRITE_CHUNK_SIZE < fileRemaining then WRITE_CHUNK_SIZE else fileRemaining;
      var view := response.payload.content[fileOffset..fileOffset + count];
      taken := [];
      var sent := socket.Send(view);
      if sent.WouldBlock? { return Wait, taken; }
      if sent.SendFailed? { return Broken, taken; }
      if sent.count == 0 { return Wait, taken; }
      taken := view[..sent.count];
      CountFileBytes(sent.count, taken);
      if fileRemaining > 0 { return Wait, taken; }
      assert Owed() == [];
      CloseResources();
      return Again, taken;
    }

    /** Read the next part of the file into a pending view. */
    method ReadFilePart()
      requires Valid(false) && pendingChunks == [] && streamIter.None? && fileOpen && fileRemaining > 0
      modifies this
      ensures Valid(false) && emitted == old(emitted) && Measure() < old(Measure())
    {
      hide ToBytes, OutboundResponse.Owed;
      var content := response.payload.content;
      var count := if WRITE_CHUNK_SIZE < fileRemaining then WRITE_CHUNK_SIZE else fileRemaining;
      var part := content[filePosition..filePosition + count];
      OwedInFile();
      TakeTail([], content, filePosition, count);
      pendingChunks := [part];
      filePosition := filePosition + count;
      fileRemaining := fileRemaining - count;
      OwedChunkAndFile(part);
    }

    /** One turn of the inner write loop on this response. Whatever the network does, the bytes it
        took and the bytes still owed make up the wire form, and a turn that asks to go on at once
        has come closer to the end. */
    method Advance(socket: Socket, canSendfile: bool) returns (r: Progress, ghost taken: Bytes)
      requires Valid(canSendfile)
      modifies this, socket
      ensures Valid(canSendfile)
      ensures emitted == old(emitted) + taken && socket.wire == old(socket.wire) + taken
      ensures r.Again? ==> Measure() < old(Measure())
      ensures r.Finished? ==> emitted == ToBytes(response) && bytesSent == |ToBytes(response)| && !fileOpen
      ensures old(pendingChunks) != [] ==> !r.Finished?
      ensures old(pendingChunks) != [] && old(pendingChunks[0]) == [] ==> !r.Again? && unchanged(this)
      ensures socket.offers >= old(socket.offers)
      ensures r.Wait? ==> socket.offers > old(socket.offers)
      ensures r.Wait? ==> socket.stalled || taken != [] || old(pendingChunks != [] && pendingChunks[0] == [])
      ensures r.Finished? ==> Sendable(response)
      ensures old(pendingChunks) != [] && old(pendingChunks[0]) == [] ==> !Sendable(response)
      ensures socket.broken == (old(socket.broken) || r.Broken?)
    {
      hide ToBytes, Sendable;
      taken := [];
      if pendingChunks != [] {
        r, taken := SendPending(socket, canSendfile);
      } else if streamIter.Some? {
        PullStream(canSendfile);
        r := Again;
      } else if fileOpen && fileRemaining > 0 {
        if canSendfile {
          r, taken := SendFilePart(socket);
        } else {
          ReadFilePart();
          r := Again;
        }
      } else {
        CloseResources();
        r := Finished;
      }
    }
  }

  /** Moving the first `n` bytes of a view from what is owed to what has been taken. */
  lemma TakeFrom(emitted: Bytes, view: Bytes, rest: Bytes, later: Bytes, n: nat)
    requires n <= |view|
    ensures emitted + view[..n] + (view[n..] + rest + later) == emitted + (view + rest + later)
    ensures n == |view| ==> view[..n] == view && view[n..] + rest == rest
  {
    assert view == view[..n] + view[n..];
  }

  lemma InterimMoves(sent: Bytes, view: Bytes, rest: seq<Bytes>, n: nat)
    requires n <= |view|
    ensures sent + view[..n] + Flatten([view[n..]] + rest) == sent + Flatten([view] + rest)
    ensures n == |view| ==> sent + view[..n] + Flatten(rest) == sent + Flatten([view] + rest)
  {
    assert ([view] + rest)[1..] == rest && ([view[n..]] + rest)[1..] == rest;
    TakeFrom(sent, view, Flatten(rest), [], n);
    assert view + Flatten(rest) + [] == view + Flatten(rest)
           && view[n..] + Flatten(rest) + [] == view[n..] + Flatten(rest);
  }

  lemma TakeTail(emitted: Bytes, content: Bytes, offset: nat, n: nat)
    requires offset + n <= |content|
    ensures emitted + content[offset..offset + n] + content[offset + n..] == emitted + content[offset..]
    ensures content[offset..offset + n] + content[offset + n..] == content[offset..]
  {}

  lemma Regroup(before: Bytes, sent: Bytes, owed: Bytes, later: Bytes)
    ensures before + sent + (owed + later) == before + (sent + owed + later)
  {}

  lemma FlattenOne(a: Bytes)
    ensures Flatten([a]) == a
  {
    assert Flatten([a]) == a + Flatten([]);
  }

  lemma FlattenTwo(a: Bytes, b: Bytes)
    ensures Flatten([a, b]) == a + b
  {
    FlattenOne(b);
    assert [a, b][1..] == [b];
  }

  // ----- the connection -----

  /** What `recv` gave: nothing yet, an error, or bytes (none at end of stream). */
  datatype Received = NotReady | ReadFailed | Bytes(data: Bytes)

  /** The wire forms of a list of answers, one after the other. */
  ghost function Wire(render: Answer -> HTTPResponse, answers: seq<Answer>): Bytes {
    if answers == [] then [] else ToBytes(render(answers[0])) + Wire(render, answers[1..])
  }

  lemma {:induction false} WireConcat(render: Answer -> HTTPResponse, a: seq<Answer>, b: seq<Answer>)
    ensures Wire(render, a + b) == Wire(render, a) + Wire(render, b)
    decreases |a|
  {
    hide ToBytes;
    if a == [] {
      assert a + b == b;
    } else {
      assert (a + b)[1..] == a[1..] + b;
      WireConcat(render, a[1..], b);
    }
  }

  lemma WireEmpty(render: Answer -> HTTPResponse)
    ensures Wire(render, []) == []
  {}

  lemma WireOne(render: Answer -> HTTPResponse, answer: Answer)
    ensures Wire(render, [answer]) == ToBytes(render(answer))
  {
    hide ToBytes;
    assert [answer][1..] == [];
    assert Wire(render, [answer]) == ToBytes(render(answer)) + Wire(render, []);
  }

  lemma WireCut(render: Answer -> HTTPResponse, answers: seq<Answer>, k: nat)
    requires k <= |answers|
    ensures Wire(render, answers) == Wire(render, answers[..k]) + Wire(render, answers[k..])
    ensures k < |answers| ==> Wire(render, answers[k..]) == ToBytes(render(answers[k])) + Wire(render, answers[k + 1..])
    ensures k < |answers| ==> Wire(render, answers[..k + 1]) == Wire(render, answers[..k]) + ToBytes(render(answers[k]))
  {
    hide ToBytes, Wire;
    assert answers == answers[..k] + answers[k..];
    WireConcat(render, answers[..k], answers[k..]);
    if k < |answers| {
      assert answers[k..] == [answers[k]] + answers[k + 1..];
      assert answers[..k + 1] == answers[..k] + [answers[k]];
      WireOne(render, answers[k]);
      WireConcat(render, [answers[k]], answers[k + 1..]);
      WireConcat(render, answers[..k], [answers[k]]);
    }
  }

  const CONTINUE: Bytes := "HTTP/1.1 100 Continue\r\n\r\n"

  function Continues(n: nat): Bytes {
    if n == 0 then [] else Continues(n - 1) + CONTINUE
  }

  lemma FlattenSnoc(parts: seq<Bytes>, last: Bytes)
    ensures Flatten(parts + [last]) == Flatten(parts) + last
  {
    FlattenAppend(parts, [last]);
    FlattenOne(last);
  }

  ghost predicate InOrder(render: Answer -> HTTPResponse, enqueued: seq<OutboundResponse>, answers: seq<Answer>,
                          closing: bool) {
    && |enqueued| == |answers|
    && (forall i :: 0 <= i < |enqueued| ==>
          && enqueued[i].response == render(answers[i])
          && enqueued[i].closeAfter == CloseAfter(answers[i])
          && enqueued[i].requestId == i + 1)
    && (forall i :: 0 <= i < |answers| - 1 ==> !CloseAfter(answers[i]))
    && (answers != [] && CloseAfter(answers[|answers| - 1]) ==> closing)
  }

  lemma InOrderAppend(render: Answer -> HTTPResponse, enqueued: seq<OutboundResponse>, answers: seq<Answer>,
                      outbound: OutboundResponse, answer: Answer)
    requires InOrder(render, enqueued, answers, false)
    requires outbound.response == render(answer) && outbound.closeAfter == CloseAfter(answer)
    requires outbound.requestId == |answers| + 1
    ensures InOrder(render, enqueued + [outbound], answers + [answer], CloseAfter(answer))
    ensures forall i :: 0 <= i < |enqueued| ==> (enqueued + [outbound])[i] == enqueued[i]
  {}

  /** Close the files of `all[k..]`. */
  method CloseAll(responses: seq<OutboundResponse>, ghost all: seq<OutboundResponse>, ghost k: nat)
    requires k <= |all| && responses == all[k..]
    requires forall i :: 0 <= i < k ==> !all[i].fileOpen
    modifies (set r | r in all)`fileOpen
    ensures forall i :: 0 <= i < |all| ==> !all[i].fileOpen
  {
    for n := 0 to |responses|
      invariant forall i :: 0 <= i < k + n ==> !all[i].fileOpen
    {
      assert responses[n] == all[k + n];
      responses[n].CloseResources();
    }
  }

  class ConnectionState {
    const socket: Socket
    const canSendfile: bool
    const render: Answer -> HTTPResponse
    var open: bool                      // still in the connection registry
    var wantsRead: bool                 // selector interest
    var wantsWrite: bool
    var recvBuffer: Bytes
    var rawWrites: seq<Bytes>
    var queuedResponses: seq<OutboundResponse>
    var currentResponse: OutboundResponse?
    var requestsServed: nat
    var requestSeq: nat
    var closing: bool
    var continueSentHeaders: set<nat>
    ghost var answers: seq<Answer>              // everything ever queued
    ghost var enqueued: seq<OutboundResponse>
    ghost var finished: nat                     // how many of them are complete
    ghost var finalBytes: Bytes                 // what the socket took of them
    ghost var interim: seq<nat>                 // when a 100 Continue was queued
    ghost var rawSent: Bytes                    // what the socket took of the interim responses
    ghost var failed: bool                      // cut short by an I/O error or by shutdown

    ghost function AllBytes(): Bytes
      reads `answers
    {
      Wire(render, answers)
    }

    ghost function Begun(): nat
      reads `finished, `currentResponse
    {
      finished + (if currentResponse == null then 0 else 1)
    }

    predicate HasPendingWrite()
      reads `rawWrites, `currentResponse, `queuedResponses
    {
      rawWrites != [] || currentResponse != null || queuedResponses != []
    }

    /** Responses are queued one per answer, in order and numbered from 1; only the last one may
        close the connection, and then nothing may follow it. */
    ghost predicate Ordered()
      reads `enqueued, `answers, `closing
    {
      InOrder(render, enqueued, answers, closing)
    }

    /** While the connection is not closing, every answer so far served a request. */
    ghost predicate Counted()
      reads `answers, `closing, `requestSeq, `requestsServed
    {
      requestSeq == requestsServed && (!closing ==> |answers| == requestsServed)
    }

    /** The queue is what has not been begun, and the socket has taken the complete responses and
        a part of the current one. */
    ghost predicate InStep()
      reads `enqueued, `answers, `finished, `currentResponse, `queuedResponses, `finalBytes, enqueued
      requires |enqueued| == |answers|
    {
      && Begun() <= |enqueued|
      && (currentResponse != null ==> currentResponse == enqueued[finished])
      && queuedResponses == enqueued[Begun()..]
      && (forall i :: finished <= i < |enqueued| ==> enqueued[i].Valid(canSendfile))
      && (forall i :: Begun() <= i < |enqueued| ==> enqueued[i].emitted == [])
      && finalBytes == Wire(render, answers[..finished])
                       + (if currentResponse == null then [] else currentResponse.emitted)
    }

    /** A closed connection holds no file open, and unless it was cut short it was closing and has
        sent everything. */
    ghost predicate Settled()
      reads `enqueued, `answers, `finished, `currentResponse, `queuedResponses, `finalBytes, `failed, `closing, enqueued
    {
      && finalBytes <= AllBytes()
      && (!failed ==> closing && finished == |enqueued| && finalBytes == AllBytes())
      && (forall i :: 0 <= i < |enqueued| ==> !enqueued[i].fileOpen)
      && queuedResponses == [] && currentResponse == null
    }

    /** The wire carries the interim bytes sent and the response bytes sent, each in their order; what
        is left of the interim responses is still in line. */
    ghost predicate Interleaved()
      reads `interim, `rawWrites, `rawSent, `finalBytes, socket`wire
    {
      && IsMerge(socket.wire, rawSent, finalBytes)
      && rawSent + Flatten(rawWrites) == Continues(|interim|)
      && [] !in rawWrites
    }

    /** What a write event may still move: interim bytes and response bytes. */
    ghost function StillOwed(): int
      reads `rawWrites, `finalBytes, `answers
    {
      |Flatten(rawWrites)| + |AllBytes()| - |finalBytes|
    }

    /** An empty view is first in line. */
    ghost predicate Stuck()
      reads `open, `currentResponse, (if currentResponse == null then {} else {currentResponse})`pendingChunks
    {
      open && currentResponse != null && currentResponse.pendingChunks != [] && currentResponse.pendingChunks[0] == []
    }

    ghost predicate Core()
      reads `enqueued, `answers, `finished, `currentResponse, `queuedResponses, `finalBytes,
            `failed, `closing, `open, `interim, `rawWrites, `rawSent, socket`wire, enqueued
    {
      && Ordered()
      && (if open then InStep() && !failed else Settled())
      && finished <= |enqueued|
      && (forall i :: 0 <= i < finished ==>
            && enqueued[i].bytesSent == |ToBytes(enqueued[i].response)| && !enqueued[i].fileOpen
            && Sendable(enqueued[i].response))
      && Interleaved()
    }

    /** Between events the selector interest says what the connection waits for. */
    ghost predicate Valid()
      reads this, socket`wire, enqueued
    {
      && Core() && Counted()
      && (open ==> wantsRead == !closing && wantsWrite == HasPendingWrite() && (closing ==> HasPendingWrite()))
    }

    ghost function View(): ReadState
      reads `recvBuffer, `requestsServed, `closing, `answers, `continueSentHeaders, `interim
    {
      ReadState(recvBuffer, requestsServed, closing, answers, continueSentHeaders, interim)
    }

    constructor (socket: Socket, canSendfile: bool, render: Answer -> HTTPResponse)
      requires socket.wire == []
      ensures Valid() && open && !failed && View() == START && enqueued == []
      ensures this.socket == socket && this.canSendfile == canSendfile && this.render == render
    {
      this.socket, this.canSendfile, this.render := socket, canSendfile, render;
      open, wantsRead, wantsWrite, closing, failed := true, true, false, false, false;
      recvBuffer, rawWrites, queuedResponses, currentResponse := [], [], [], null;
      requestsServed, requestSeq, finished, continueSentHeaders := 0, 0, 0, {};
      answers, enqueued, finalBytes, interim, rawSent := [], [], [], [], [];
      assert Flatten([]) == [] && Continues(0) == [];
      hide IsMerge, Wire, Flatten, Continues, ToBytes, Sendable, OutboundResponse.Valid, OutboundResponse.Owed;
      hide ConnectionState.Settled;
      new;
      WireEmpty(render);
      MergeNothing();
      assert answers[..finished] == [] && queuedResponses == enqueued[Begun()..];
      assert finalBytes == Wire(render, answers[..finished]) + [];
      assert rawSent + Flatten(rawWrites) == [];
      assert Ordered() && InStep() && Interleaved();
    }

    /** Conservation: while a connection is open, what the socket took of the responses, followed
        by what is still owed, is the concatenation of the wire forms in order. */
    lemma TakenPlusOwed()
      requires Ordered() && InStep()
      ensures finalBytes
              + ((if currentResponse == null then [] else currentResponse.Owed()) + Wire(render, answers[Begun()..]))
              == AllBytes()
    {
      hide ToBytes, Wire;
      WireCut(render, answers, finished);
      if currentResponse != null {
        assert enqueued[finished].Valid(canSendfile);
        Regroup(Wire(render, answers[..finished]), currentResponse.emitted, currentResponse.Owed(),
                Wire(render, answers[Begun()..]));
      }
    }

    lemma SentIsPrefix()
      requires Core() && open
      ensures finalBytes <= AllBytes() && (finished == |enqueued| ==> finalBytes == AllBytes())
    {
      hide ToBytes, Wire;
      TakenPlusOwed();
      assert answers[..|answers|] == answers;
    }

    /** Open or closed, only bytes of the answers in their order have been sent. */
    lemma SentBytes()
      requires Core()
      ensures finalBytes <= AllBytes()
      ensures !open && !failed ==> finalBytes == AllBytes()
      ensures IsMerge(socket.wire, rawSent, finalBytes) && rawSent + Flatten(rawWrites) == Continues(|interim|)
      ensures |socket.wire| + StillOwed() == |Continues(|interim|)| + |AllBytes()|
      ensures interim == [] ==> socket.wire == finalBytes
    {
      hide ConnectionState.InStep, ConnectionState.AllBytes, ConnectionState.Ordered;
      if open { SentIsPrefix(); }
      MergeLength(socket.wire, rawSent, finalBytes);
      assert |rawSent + Flatten(rawWrites)| == |rawSent| + |Flatten(rawWrites)|;
    }

    lemma ClosedMeansDone()
      requires Core()
      ensures open ==> !failed
      ensures !open && !failed ==> closing
    {}

    /** An empty view is first in line only for a stream with an empty chunk; responses that are
        complete had none, and a connection that closed by itself has completed them all. */
    lemma OnlySendableFinish()
      requires Core()
      ensures Stuck() ==> finished < |answers| && !Sendable(render(answers[finished]))
      ensures finished <= |answers| && forall i :: 0 <= i < finished ==> Sendable(render(answers[i]))
      ensures !open && !failed ==> finished == |answers|
    {
      hide ToBytes, Wire, Sendable, OutboundResponse.Owed;
      if Stuck() { assert enqueued[finished].Valid(canSendfile) && enqueued[finished].HoldsEmpty(); }
      forall i | 0 <= i < finished ensures Sendable(render(answers[i])) { assert Sendable(enqueued[i].response); }
    }

    /** Let go of the responses that will not be sent any more. */
    method ReleaseResponses()
      requires Core() && open
      modifies `currentResponse, `queuedResponses, (set r | r in enqueued)`fileOpen
      ensures currentResponse == null && queuedResponses == []
      ensures forall i :: 0 <= i < |enqueued| ==> !enqueued[i].fileOpen
    {
      hide ToBytes, Wire, OutboundResponse.Valid, OutboundResponse.Owed, Sendable;
      hide ConnectionState.Interleaved, ConnectionState.Settled;
      ghost var begun := Begun();
      if currentResponse != null {
        currentResponse.CloseResources();
        currentResponse := null;
      }
      CloseAll(queuedResponses, enqueued, begun);
      queuedResponses := [];
    }

    /** `_close_selector_connection` on a registered connection. */
    method Close(cutShort: bool)
      requires Core() && open
      requires !cutShort ==> closing && finished == |enqueued|
      modifies `open, `failed, `currentResponse, `queuedResponses, (set r | r in enqueued)`fileOpen
      ensures Core() && !open && failed == cutShort && currentResponse == null
    {
      hide ToBytes, Wire, OutboundResponse.Valid, OutboundResponse.Owed;
      hide ConnectionState.InStep, ConnectionState.AllBytes, ConnectionState.Interleaved, InOrder;
      SentIsPrefix();
      ReleaseResponses();
      open, failed := false, cutShort;
    }

    lemma NothingPending()
      requires Core() && open && !HasPendingWrite()
      ensures finished == |enqueued|
    {
      assert queuedResponses == enqueued[finished..];
    }

    /** `_update_selector_interest` */
    method UpdateInterest()
      requires Core() && Counted()
      modifies `open, `failed, `currentResponse, `queuedResponses, `wantsRead, `wantsWrite, socket`broken,
               (set r | r in enqueued)`fileOpen
      ensures Valid()
      ensures (failed && !old(failed)) || old(socket.broken) ==> socket.broken
      ensures open ==> currentResponse == old(currentResponse) && queuedResponses == old(queuedResponses)
      ensures old(Stuck()) && open ==> Stuck()
    {
      hide ConnectionState.Core;
      if !open { return; }
      if closing && !HasPendingWrite() {
        NothingPending();
        Close(false);
        return;
      }
      wantsRead, wantsWrite := !closing, HasPendingWrite();
      var accepted := socket.ModifyInterest();
      if !accepted { Close(true); }
    }

    /** The queue, the enqueued responses and the answers grow together. */
    lemma AppendKeepsStep(outbound: OutboundResponse, answer: Answer)
      requires Ordered() && InStep()
      requires outbound.Valid(canSendfile) && outbound.emitted == []
      ensures |enqueued| == |answers| && Begun() <= |enqueued|
      ensures var all := enqueued + [outbound];
              && all[Begun()..] == queuedResponses + [outbound]
              && (forall i :: finished <= i < |all| ==> all[i].Valid(canSendfile))
              && (forall i :: Begun() <= i < |all| ==> all[i].emitted == [])
              && (currentResponse != null ==> all[finished] == currentResponse)
      ensures (answers + [answer])[..finished] == answers[..finished]
    {
      hide ToBytes, Wire, OutboundResponse.Valid, OutboundResponse.Owed;
    }

    method Append(outbound: OutboundResponse, ghost answer: Answer)
      requires Core() && open && !closing
      requires outbound.Valid(canSendfile) && outbound.emitted == []
      requires outbound.response == render(answer) && outbound.closeAfter == CloseAfter(answer)
      requires outbound.requestId == |answers| + 1
      modifies `queuedResponses, `answers, `enqueued, `closing
      ensures Core() && HasPendingWrite()
      ensures answers == old(answers) + [answer] && enqueued == old(enqueued) + [outbound]
              && closing == CloseAfter(answer)
    {
      hide ToBytes, Wire, OutboundResponse.Valid, OutboundResponse.Owed, ConnectionState.Interleaved, InOrder;
      hide ConnectionState.Settled;
      InOrderAppend(render, enqueued, answers, outbound, answer);
      AppendKeepsStep(outbound, answer);
      queuedResponses := queuedResponses + [outbound];
      closing := outbound.closeAfter;
      answers, enqueued := answers + [answer], enqueued + [outbound];
    }

    /** `_queue_selector_response`; its callers set `closing` with a closing response. */
    method QueueResponse(answer: Answer, requestId: nat)
      requires Core() && open && !closing && requestId == |answers| + 1
      modifies `queuedResponses, `answers, `enqueued, `closing
      ensures Core() && HasPendingWrite()
      ensures answers == old(answers) + [answer] && closing == CloseAfter(answer)
      ensures |enqueued| == |old(enqueued)| + 1 && old(enqueued) <= enqueued && fresh(enqueued[|old(enqueued)|])
    {
      hide ConnectionState.Core, OutboundResponse.Valid;
      var outbound := new OutboundResponse(render(answer), requestId, CloseAfter(answer), canSendfile);
      Append(outbound, answer);
    }

    // ----- reading -----

    /** `_maybe_queue_continue` */
    method MaybeQueueContinue()
      requires Core() && open
      modifies `rawWrites, `continueSentHeaders, `interim
      ensures Core() && View() == MaybeContinue(old(View()))
    {
      hide ConnectionState.InStep, ConnectionState.Ordered, ConnectionState.Settled, Framer.HeadOf, IsMerge, Flatten;
      FlattenSnoc(rawWrites, CONTINUE);
      assert rawSent + (Flatten(rawWrites) + CONTINUE) == rawSent + Flatten(rawWrites) + CONTINUE;
      var head := InspectHead(recvBuffer);
      if !head.HeadInfo? || !head.expectContinue { return; }
      if !head.chunked && head.expectedLength == 0 { return; }
      if head.headerEnd in continueSentHeaders { return; }
      rawWrites := rawWrites + [CONTINUE];
      continueSentHeaders := continueSentHeaders + {head.headerEnd};
      interim := interim + [requestsServed];
    }

    /** Take the message of length `n` off the buffer and queue its answer. */
    method AnswerMessage(n: nat, env: Env)
      requires Core() && Counted() && open && !closing
      requires n <= |recvBuffer| && Extract(recvBuffer) == Message(n)
      modifies `recvBuffer, `continueSentHeaders, `requestsServed, `requestSeq,
               `queuedResponses, `answers, `enqueued, `closing
      ensures Core() && Counted()
      ensures View() == Answered(old(View()), n, AnswerTo(env, old(recvBuffer)[..n], old(requestsServed)))
      ensures HasPendingWrite()
      ensures forall i :: 0 <= i < |enqueued| ==> enqueued[i] in old(enqueued) || fresh(enqueued[i])
    {
      hide ConnectionState.Core, Engine.AnswerTo, Framer.Extract, Framer.Verdict;
      ExtractFits(recvBuffer);
      MessageAlone(recvBuffer);
      var raw := recvBuffer[..n];
      recvBuffer := recvBuffer[n..];
      continueSentHeaders := {};
      var answer := AnswerRequest(env, raw, requestsServed);
      QueueResponse(answer, requestSeq + 1);
      if !answer.Rejected? {
        requestsServed, requestSeq := requestsServed + 1, requestSeq + 1;
      }
    }

    /** The loop of `_handle_selector_read`: it does what the recursive `Drain` says. */
    method DrainBuffer(env: Env)
      requires Core() && Counted() && open && !closing
      requires Unsigned(env, recvBuffer, requestsServed, [])
      modifies `recvBuffer, `continueSentHeaders, `requestsServed, `requestSeq, `rawWrites, `interim,
               `queuedResponses, `answers, `enqueued, `closing
      ensures Core() && Counted()
      ensures View() == Drain(env, old(View()))
      ensures forall i :: 0 <= i < |enqueued| ==> enqueued[i] in old(enqueued) || fresh(enqueued[i])
    {
      hide ConnectionState.Core, Engine.AnswerTo, Framer.Extract, Engine.MaybeContinue, Engine.Unsigned;
      while !closing
        invariant !closing ==> Unsigned(env, recvBuffer, requestsServed, [])
        invariant Core() && Counted()
        invariant (if closing then View() else Drain(env, View())) == Drain(env, old(View()))
        invariant forall i :: 0 <= i < |enqueued| ==> enqueued[i] in old(enqueued) || fresh(enqueued[i])
        decreases !closing, |recvBuffer|
      {
        UnsignedStep(env, recvBuffer, requestsServed, []);
        ghost var first := if Extract(recvBuffer).Message? then Extract(recvBuffer).length else 0;
        KeptOpenIsServed(env, recvBuffer[..first], requestsServed);
        UnsignedHalts(recvBuffer);
        var extracted := ExtractMessage(recvBuffer);
        match extracted {
          case Failed(e) =>
            QueueResponse(Rejected(ReadStatus(e)), requestSeq + 1);
          case Incomplete =>
            MaybeQueueContinue();
            return;
          case Message(n) =>
            ExtractFits(recvBuffer);
            AnswerMessage(n, env);
        }
      }
    }

    method StartClosing()
      requires Core() && Counted() && open
      modifies `closing
      ensures Core() && Counted() && closing
    {
      hide ConnectionState.InStep, ConnectionState.Interleaved, ConnectionState.Settled;
      closing := true;
    }

    /** One read event. On data the connection takes exactly the step the engine specification
        takes; at end of stream it starts closing; an error closes it. */
    method HandleRead(received: Received, env: Env)
      requires Valid() && (open ==> wantsRead)
      requires open && received.Bytes? ==> Unsigned(env, recvBuffer + received.data, requestsServed, [])
      modifies this, socket`broken, (set r | r in enqueued)`fileOpen
      ensures Valid()
      ensures failed && !old(failed) ==> received.ReadFailed? || socket.broken
      ensures old(socket.broken) ==> socket.broken
      ensures old(open) && received.Bytes? && received.data != []
              ==> View() == ReadEvent(env, old(View()), received.data)
      ensures old(open) && received == Bytes([]) ==> View() == old(View()).(closing := true)
      ensures !old(open) || received.NotReady? || received.ReadFailed? ==> View() == old(View())
      ensures old(open) && received.ReadFailed? ==> !open && failed
      ensures old(open) && received.NotReady? ==> open
      ensures finalBytes == old(finalBytes) && finished == old(finished) && rawSent == old(rawSent)
      ensures old(Stuck()) && open ==> Stuck()
      ensures forall i :: 0 <= i < |enqueued| ==> enqueued[i] in old(enqueued) || fresh(enqueued[i])
    {
      hide ConnectionState.Core, Engine.Drain, ConnectionState.Stuck, Engine.Unsigned;
      if !open || received.NotReady? { return; }
      if received.ReadFailed? {
        Close(true);
        return;
      }
      if received.data == [] {
        StartClosing();
        UpdateInterest();
        return;
      }
      recvBuffer := recvBuffer + received.data;
      DrainBuffer(env);
      UpdateInterest();
    }

    /** `_sweep_idle_connections` on one connection whose time is up. */
    method SweepIdle()
      requires Valid() && open
      modifies this, socket`broken, (set r | r in enqueued)`fileOpen
      ensures finalBytes == old(finalBytes) && finished == old(finished)
      ensures old(Stuck()) && open ==> Stuck()
      ensures Valid() && (failed || old(socket.broken) ==> socket.broken)
      ensures forall i :: 0 <= i < |enqueued| ==> enqueued[i] in old(enqueued) || fresh(enqueued[i])
      ensures old(closing) ==> View() == old(View())
      ensures !old(closing) ==> View() == old(View()).(answers := old(answers) + [Rejected(408)], closing := true)
    {
      hide ConnectionState.Core, ConnectionState.Stuck;
      ClosedMeansDone();
      if closing { return; }
      QueueResponse(Rejected(408), requestSeq + 1);
      UpdateInterest();
    }

    /** The loop ends and closes what is still registered. */
    method Shutdown()
      requires Valid() && open
      modifies this, (set r | r in enqueued)`fileOpen
      ensures finalBytes == old(finalBytes) && finished == old(finished)
      ensures Valid() && View() == old(View()) && !open && failed && enqueued == old(enqueued)
    {
      hide ConnectionState.Core;
      Close(true);
    }

    // ----- writing -----

    /** Offer the first interim view to the socket. */
    method SendInterim() returns (r: Progress)
      requires Core() && open && rawWrites != []
      modifies `rawWrites, `rawSent, socket
      ensures Core() && !r.Finished?
      ensures r.Again? ==> |rawWrites| < |old(rawWrites)|
      ensures r.Wait? ==> rawWrites != [] && socket.stalled
      ensures old(rawSent) <= rawSent && socket.offers == old(socket.offers) + 1
      ensures socket.broken == (old(socket.broken) || r.Broken?)
    {
      hide ConnectionState.InStep, ConnectionState.Ordered, ConnectionState.Settled, IsMerge, Continues, Flatten;
      var view, rest := rawWrites[0], rawWrites[1..];
      var sent := socket.Send(view);
      if sent.WouldBlock? { return Wait; }
      if sent.SendFailed? { return Broken; }
      if sent.count == 0 {
        assert socket.wire == old(socket.wire);
        return Wait;
      }
      MergeGrows(old(socket.wire), rawSent, finalBytes, view[..sent.count]);
      InterimMoves(rawSent, view, rest, sent.count);
      assert rawWrites == [view] + rest;
      rawSent := rawSent + view[..sent.count];
      rawWrites := if sent.count < |view| then [view[sent.count..]] + rest else rest;
      return if sent.count < |view| then Wait else Again;
    }

    /** Interim responses go out first; they stay in line only if the socket would not take them. */
    method FlushRaw() returns (goOn: bool)
      requires Core() && open
      modifies `rawWrites, `rawSent, `open, `failed, `currentResponse, `queuedResponses, socket,
               (set r | r in enqueued)`fileOpen
      ensures Core() && old(rawSent) <= rawSent
      ensures goOn ==> open && rawWrites == []
      ensures !goOn && open ==> rawWrites != [] && Stopped(old(socket.offers), finalBytes)
      ensures socket.offers >= old(socket.offers)
      ensures failed || old(socket.broken) ==> socket.broken
      ensures old(Stuck()) && open ==> Stuck()
      ensures open ==> currentResponse == old(currentResponse) && queuedResponses == old(queuedResponses)
    {
      hide ConnectionState.Core;
      ClosedMeansDone();
      while rawWrites != []
        invariant Core() && open && !failed && socket.offers >= old(socket.offers) && old(rawSent) <= rawSent
        invariant old(socket.broken) ==> socket.broken
        invariant currentResponse == old(currentResponse) && queuedResponses == old(queuedResponses)
        decreases |rawWrites|
      {
        var r := SendInterim();
        if r.Wait? { return false; }
        if r.Broken? {
          Close(true);
          return false;
        }
      }
      return true;
    }

    method BeginNext()
      requires Core() && open && currentResponse == null && queuedResponses != []
      modifies `currentResponse, `queuedResponses
      ensures Core() && currentResponse != null && finished < |enqueued| && currentResponse == enqueued[finished]
    {
      hide ToBytes, Wire, OutboundResponse.Valid, OutboundResponse.Owed;
      assert queuedResponses == enqueued[finished..];
      currentResponse := queuedResponses[0];
      queuedResponses := queuedResponses[1..];
      assert queuedResponses == enqueued[finished + 1..];
      assert Wire(render, answers[..finished]) + [] == Wire(render, answers[..finished]);
    }

    /** The socket takes some bytes of the current response. */
    method AdvanceCurrent() returns (r: Progress, ghost taken: Bytes)
      requires Core() && open && currentResponse != null
      modifies `finalBytes, socket, currentResponse
      ensures Core() && finalBytes == old(finalBytes) + taken && currentResponse.Valid(canSendfile)
      ensures currentResponse.emitted == old(currentResponse.emitted) + taken
      ensures r.Again? ==> currentResponse.Measure() < old(currentResponse.Measure())
      ensures r.Finished? ==> currentResponse.emitted == ToBytes(currentResponse.response)
                              && currentResponse.bytesSent == |ToBytes(currentResponse.response)|
                              && !currentResponse.fileOpen
      ensures old(currentResponse.pendingChunks) != [] ==> !r.Finished?
      ensures old(currentResponse.pendingChunks) != [] && old(currentResponse.pendingChunks[0]) == [] ==>
                !r.Again? && taken == [] && currentResponse.pendingChunks == old(currentResponse.pendingChunks)
      ensures socket.offers >= old(socket.offers) && socket.broken == (old(socket.broken) || r.Broken?)
      ensures r.Wait? ==> socket.offers > old(socket.offers)
      ensures r.Wait? ==> socket.stalled || taken != [] || old(Stuck())
      ensures r.Finished? ==> Sendable(currentResponse.response)
      ensures old(Stuck()) ==> !Sendable(currentResponse.response)
    {
      hide ToBytes, Wire, OutboundResponse.Valid, OutboundResponse.Owed, OutboundResponse.Measure, IsMerge;
      hide ConnectionState.Settled, Flatten, Continues, Sendable;
      ghost var before, wire := currentResponse.emitted, socket.wire;
      r, taken := currentResponse.Advance(socket, canSendfile);
      MergeGrows(wire, rawSent, finalBytes, taken);
      finalBytes := finalBytes + taken;
      assert |before + taken| == |before| + |taken|;
    }

    /** One turn of the write loop on the current response. */
    method StepCurrent() returns (r: Progress)
      requires Core() && open && currentResponse != null
      modifies `finalBytes, socket, currentResponse
      ensures Core() && old(finalBytes) <= finalBytes
      ensures finished < |enqueued| == |answers| && currentResponse.closeAfter == CloseAfter(answers[finished])
      ensures currentResponse.Valid(canSendfile)
      ensures r.Again? ==> currentResponse.Measure() < old(currentResponse.Measure())
      ensures socket.offers >= old(socket.offers) && socket.broken == (old(socket.broken) || r.Broken?)
      ensures r.Wait? && !Stuck() ==>
                socket.offers > old(socket.offers) && (socket.stalled || |old(finalBytes)| < |finalBytes|)
      ensures r.Finished? ==> Sendable(currentResponse.response)
      ensures r.Finished? ==> currentResponse.emitted == ToBytes(currentResponse.response)
                              && currentResponse.bytesSent == |ToBytes(currentResponse.response)|
                              && !currentResponse.fileOpen
      ensures old(Stuck()) ==> !r.Again? && !r.Finished? && finalBytes == old(finalBytes) && Stuck()
    {
      hide ConnectionState.Core, ToBytes, OutboundResponse.Valid, OutboundResponse.Measure, Sendable;
      CurrentIsNext();
      ghost var taken;
      r, taken := AdvanceCurrent();
    }

    method FinishCurrent()
      requires Core() && open && currentResponse != null
      requires currentResponse.emitted == ToBytes(currentResponse.response)
      requires currentResponse.bytesSent == |ToBytes(currentResponse.response)| && !currentResponse.fileOpen
      requires Sendable(currentResponse.response)
      modifies `finished, `currentResponse
      ensures Core() && finished == old(finished) + 1 && currentResponse == null
    {
      hide ToBytes, Wire, OutboundResponse.Valid, OutboundResponse.Owed;
      WireCut(render, answers, finished);
      finished := finished + 1;
      currentResponse := null;
    }

    lemma CurrentIsNext()
      requires Core()
      ensures finished <= |enqueued| == |answers|
      ensures open && currentResponse != null ==>
                && finished < |enqueued| && currentResponse == enqueued[finished]
                && currentResponse.closeAfter == CloseAfter(answers[finished])
                && forall i :: 0 <= i < |enqueued| && i != finished ==> enqueued[i] != currentResponse
    {}

    /** A response that closes the connection is the last one ever queued. */
    lemma CloserIsLast()
      requires Core() && open && 0 < finished <= |answers| && CloseAfter(answers[finished - 1])
      ensures finished == |enqueued| && closing
    {}

    predicate HasPendingResponse()
      reads `currentResponse, `queuedResponses
    {
      currentResponse != null || queuedResponses != []
    }

    /** Since `sent` had been taken and `offers` sends tried, the socket was offered more, and it
        either took some of it or refused to. */
    ghost predicate Stopped(offers: nat, sent: Bytes)
      reads `finalBytes, socket`offers, socket`stalled
    {
      socket.offers > offers && (socket.stalled || |sent| < |finalBytes|)
    }

    /** A response is complete; if it is to close the connection, nothing was queued behind it. */
    method FinalizeCurrent()
      requires Core() && open && currentResponse != null
      requires finished < |enqueued| == |answers| && currentResponse.closeAfter == CloseAfter(answers[finished])
      requires currentResponse.emitted == ToBytes(currentResponse.response)
      requires currentResponse.bytesSent == |ToBytes(currentResponse.response)| && !currentResponse.fileOpen
      requires Sendable(currentResponse.response)
      modifies `finished, `currentResponse, `open, `failed, `queuedResponses, (set r | r in enqueued)`fileOpen
      ensures Core() && finished == old(finished) + 1 && !failed
      ensures currentResponse == null && open == !CloseAfter(answers[old(finished)])
    {
      hide ConnectionState.Core, ToBytes, Sendable;
      ClosedMeansDone();
      var closeAfter := currentResponse.closeAfter;
      FinishCurrent();
      if closeAfter {
        CloserIsLast();
        Close(false);
      }
    }

    lemma StoppedEarlier(earlier: nat, offers: nat, sent: Bytes)
      requires Stopped(offers, sent) && earlier <= offers
      ensures Stopped(earlier, sent)
    {}

    /** The response loop of `_handle_selector_write`, for every way the network may take the
        bytes. It ends with `goOn` when the interest is to be updated. */
    method PumpResponses() returns (goOn: bool)
      requires Core() && open && (currentResponse == null || currentResponse in enqueued)
      modifies `open, `failed, `currentResponse, `queuedResponses, `finished, `finalBytes, socket, enqueued
      ensures Core() && (goOn ==> open)
      ensures old(Stuck()) ==> finished == old(finished) && finalBytes == old(finalBytes) && (open ==> Stuck())
      ensures old(Stuck()) ==> !goOn
      ensures Stuck() ==> finished < |answers| && !Sendable(render(answers[finished]))
      ensures !goOn && open ==> currentResponse != null && (Stopped(old(socket.offers), old(finalBytes)) || Stuck())
      ensures goOn ==> !HasPendingResponse() || finished > old(finished)
      ensures failed || old(socket.broken) ==> socket.broken
      ensures old(finished) <= finished && old(finalBytes) <= finalBytes && old(socket.offers) <= socket.offers
    {
      hide ConnectionState.Core, OutboundResponse.Measure, OutboundResponse.Valid, ToBytes, Sendable;
      ClosedMeansDone();
      CurrentIsNext();
      while true
        invariant Core() && open
        invariant old(finished) <= finished <= |enqueued| && old(finalBytes) <= finalBytes
        invariant old(socket.offers) <= socket.offers && !failed && (old(socket.broken) ==> socket.broken)
        invariant currentResponse == null || currentResponse in enqueued
        invariant old(Stuck()) ==> Stuck() && finished == old(finished) && finalBytes == old(finalBytes)
        decreases |enqueued| - finished, if currentResponse == null then 1 else 0,
                  if currentResponse == null then 0 else currentResponse.Measure()
      {
        if currentResponse == null {
          if queuedResponses == [] { return true; }
          BeginNext();
        }
        var r := StepCurrent();
        match r {
          case Again =>
          case Wait =>
            OnlySendableFinish();
            return false;
          case Broken =>
            Close(true);
            return false;
          case Finished =>
            FinalizeCurrent();
            if !open { return false; }
            if closing { return true; }
        }
      }
    }

    /** One write event. Responses are completed in the order they were queued; nothing is
        queued, and the read side is untouched. Something is left for later only because the
        socket would not take it, or after something else was sent. */
    method HandleWrite()
      requires Valid() && (open ==> wantsWrite)
      modifies this, socket, enqueued
      ensures Valid()
      ensures View() == old(View()) && enqueued == old(enqueued)
      ensures (failed && !old(failed)) || old(socket.broken) ==> socket.broken
      ensures old(finished) <= finished && old(finalBytes) <= finalBytes && old(rawSent) <= rawSent
      ensures |socket.wire| + StillOwed() == old(|socket.wire| + StillOwed())
      ensures open && HasPendingWrite() ==>
                finished > old(finished) || Stopped(old(socket.offers), old(finalBytes)) || Stuck()
      ensures old(Stuck()) ==> finished == old(finished) && finalBytes == old(finalBytes) && (open ==> Stuck())
      ensures Stuck() ==> finished < |answers| && !Sendable(render(answers[finished]))
    {
      hide ConnectionState.Core, IsMerge, Sendable;
      SentBytes();
      Write();
      SentBytes();
      OnlySendableFinish();
    }

    /** The event without the account of its bytes. */
    method Write()
      requires Valid() && (open ==> wantsWrite)
      modifies this, socket, enqueued
      ensures Valid()
      ensures View() == old(View()) && enqueued == old(enqueued)
      ensures (failed && !old(failed)) || old(socket.broken) ==> socket.broken
      ensures old(finished) <= finished && old(finalBytes) <= finalBytes && old(rawSent) <= rawSent
      ensures open && HasPendingWrite() ==>
                finished > old(finished) || Stopped(old(socket.offers), old(finalBytes)) || Stuck()
      ensures old(Stuck()) ==> finished == old(finished) && finalBytes == old(finalBytes) && (open ==> Stuck())
    {
      hide ConnectionState.Core, ConnectionState.Stuck, ConnectionState.Stopped;
      if !open { return; }
      var goOn := FlushRaw();
      if !goOn { return; }
      ghost var offers := socket.offers;
      WriteResponses();
      if open && HasPendingWrite() && finished == old(finished) && !Stuck() {
        StoppedEarlier(old(socket.offers), offers, old(finalBytes));
      }
    }

    /** The responses, once no interim bytes are in line. */
    method WriteResponses()
      requires Core() && Counted() && open && rawWrites == [] && wantsRead == !closing && wantsWrite
      modifies `open, `failed, `currentResponse, `queuedResponses, `finished, `finalBytes, `wantsRead, `wantsWrite,
               socket, enqueued
      ensures Valid()
      ensures failed || old(socket.broken) ==> socket.broken
      ensures old(finished) <= finished && old(finalBytes) <= finalBytes
      ensures open && HasPendingWrite() ==>
                finished > old(finished) || Stopped(old(socket.offers), old(finalBytes)) || Stuck()
      ensures old(Stuck()) ==> finished == old(finished) && finalBytes == old(finalBytes) && (open ==> Stuck())
    {
      hide ConnectionState.Core, ConnectionState.Stuck, ConnectionState.Stopped;
      CurrentIsNext();
      var goOn := PumpResponses();
      if goOn { UpdateInterest(); }
    }
  }
}

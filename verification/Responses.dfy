/** `response.py`: a response, its header dictionary, and its wire form; and the blocking writer
    of `socket_handler.py`. */
module Responses {
  import opened Wrappers
  import opened ByteStrings
  import Chunked

  /** A dictionary in insertion order; keys are unique. */
  type Headers = seq<(Bytes, Bytes)>

  predicate Has(h: Headers, key: Bytes) { exists i :: 0 <= i < |h| && h[i].0 == key }

  function SetDefault(h: Headers, key: Bytes, value: Bytes): Headers {
    if Has(h, key) then h else h + [(key, value)]
  }

  /** `h[key] = value` keeps the place of a key that is there. */
  function Assign(h: Headers, key: Bytes, value: Bytes): Headers {
    if h == [] then [(key, value)]
    else if h[0].0 == key then [(key, value)] + h[1..]
    else [h[0]] + Assign(h[1..], key, value)
  }

  /** `h.pop(key, None)` */
  function Pop(h: Headers, key: Bytes): Headers {
    if h == [] then []
    else if h[0].0 == key then Pop(h[1..], key)
    else [h[0]] + Pop(h[1..], key)
  }

  datatype Payload = Body(bytes: Bytes) | Stream(chunks: seq<Bytes>) | File(content: Bytes)

  /** `reason` is empty when the handler leaves it to the table; `date` is what the clock gives
      when the response is prepared. */
  datatype HTTPResponse = HTTPResponse(
    status: nat, reason: Bytes, headers: Headers, payload: Payload, lengthOverride: Option<nat>, date: Bytes)

  function ReasonPhrase(status: nat): Bytes {
    match status
    case 100 => "Continue"
    case 200 => "OK"
    case 304 => "Not Modified"
    case 400 => "Bad Request"
    case 403 => "Forbidden"
    case 404 => "Not Found"
    case 405 => "Method Not Allowed"
    case 408 => "Request Timeout"
    case 413 => "Payload Too Large"
    case 414 => "URI Too Long"
    case 431 => "Request Header Fields Too Large"
    case 500 => "Internal Server Error"
    case 501 => "Not Implemented"
    case 503 => "Service Unavailable"
    case 505 => "HTTP Version Not Supported"
    case _ => "Unknown"
  }

  const SERVER_NAME: Bytes := "CustomHTTPServer/2.0"

  function PayloadLength(p: Payload): nat
    requires !p.Stream?
  {
    if p.Body? then |p.bytes| else |p.content|
  }

  /** The header dictionary `prepare_response` ends up with. */
  function PreparedHeaders(r: HTTPResponse): Headers {
    var h := SetDefault(SetDefault(SetDefault(r.headers, "Date", r.date), "Server", SERVER_NAME),
                        "Content-Type", "text/plain; charset=utf-8");
    if r.payload.Stream? then Assign(Pop(h, "Content-Length"), "Transfer-Encoding", "chunked")
    else Assign(h, "Content-Length",
                Decimal(if r.lengthOverride.Some? then r.lengthOverride.value else PayloadLength(r.payload)))
  }

  function StatusLine(r: HTTPResponse): Bytes {
    "HTTP/1.1 " + Decimal(r.status) + " " + (if r.reason == [] then ReasonPhrase(r.status) else r.reason)
  }

  function HeaderLine(field: (Bytes, Bytes)): Bytes { field.0 + ": " + field.1 }

  function HeaderLines(h: Headers): seq<Bytes> {
    seq(|h|, i requires 0 <= i < |h| => HeaderLine(h[i]))
  }

  /** `"\r\n".join(lines)` */
  function Join(lines: seq<Bytes>): Bytes
    requires lines != []
  {
    if |lines| == 1 then lines[0] else lines[0] + CRLF + Join(lines[1..])
  }

  function ResponseHead(r: HTTPResponse): Bytes {
    Join([StatusLine(r)] + HeaderLines(PreparedHeaders(r))) + SEPARATOR
  }

  /** The pieces the body is written in: the encoder's for a stream. */
  function PayloadBytes(p: Payload): Bytes {
    match p
    case Body(bytes) => bytes
    case Stream(chunks) => Chunked.Encode(chunks)
    case File(content) => content
  }

  /** The wire form of a response. */
  function ToBytes(r: HTTPResponse): Bytes { ResponseHead(r) + PayloadBytes(r.payload) }

  method Serialize(r: HTTPResponse) returns (payload: Bytes)
    ensures payload == ToBytes(r)
  {
    hide ResponseHead;
    payload := ResponseHead(r);
    match r.payload {
      case Body(bytes) => payload := payload + bytes;
      case File(content) => payload := payload + content;
      case Stream(chunks) =>
        var pieces := Chunked.EncodePieces(chunks);
        assert pieces[0..] == pieces;
        for i := 0 to |pieces|
          invariant payload + Flatten(pieces[i..]) == ToBytes(r)
        {
          assert pieces[i..][1..] == pieces[i + 1..];
          assert payload + Flatten(pieces[i..]) == payload + pieces[i] + Flatten(pieces[i + 1..]);
          payload := payload + pieces[i];
        }
        assert payload + [] == payload;
    }
  }

  /** The selectors engine can bring the response to its end: no chunk of a stream is empty. */
  predicate Sendable(r: HTTPResponse) { r.payload.Stream? ==> Chunked.AllFilled(r.payload.chunks) }

  /** The encoder yields an empty piece exactly for an empty chunk. */
  lemma {:induction false} EmptyPieces(chunks: seq<Bytes>)
    ensures [] in Chunked.EncodePieces(chunks) <==> !Chunked.AllFilled(chunks)
    decreases |chunks|
  {
    hide Numeral;
    if chunks != [] {
      var first, rest := chunks[0], chunks[1..];
      EmptyPieces(rest);
      var pieces := [Hex(|first|) + CRLF, first, CRLF];
      assert Chunked.EncodePieces(chunks) == pieces + Chunked.EncodePieces(rest);
      assert [] in pieces <==> first == [] by {
        assert |Hex(|first|) + CRLF| > 0 && pieces[1] == first;
      }
      assert Chunked.AllFilled(chunks) <==> first != [] && Chunked.AllFilled(rest) by {
        assert forall i :: 0 < i < |chunks| ==> chunks[i] == rest[i - 1];
        assert forall i :: 0 <= i < |rest| ==> rest[i] == chunks[i + 1];
      }
    }
  }

  // ----- sockets -----

  datatype Sent = Accepted(count: nat) | WouldBlock | SendFailed

  /** A socket, as the bytes it has taken so far. What a non-blocking send accepts is up to the
      network: any number of bytes up to what it is offered, nothing at all, or an error. */
  class Socket {
    ghost var wire: Bytes
    ghost var offers: nat    // how often a non-blocking send was tried
    ghost var stalled: bool  // the last one did not take all it was offered
    ghost var broken: bool   // a send failed, or the selector refused the socket
    ghost var dry: bool      // the last sendfile reported that it sent nothing

    constructor ()
      ensures wire == []
    {
      wire, offers, stalled, broken, dry := [], 0, false, false, false;
    }

    method SendAll(data: Bytes)
      modifies this
      ensures wire == old(wire) + data
    {
      wire := wire + data;
    }

    method Send(view: Bytes) returns (r: Sent)
      modifies this
      ensures r.Accepted? ==> r.count <= |view| && wire == old(wire) + view[..r.count]
      ensures !r.Accepted? ==> wire == old(wire)
      ensures offers == old(offers) + 1 && stalled == (r.Accepted? ==> r.count < |view|)
      ensures broken == (old(broken) || r.SendFailed?)
    {
      if * {
        var count: nat :| count <= |view|;
        r := Accepted(count);
        wire := wire + view[..count];
      } else if * {
        r := WouldBlock;
      } else {
        r := SendFailed;
      }
      offers := offers + 1;
      stalled := r.Accepted? ==> r.count < |view|;
      broken := broken || r.SendFailed?;
    }

    /** `selector.modify` may refuse the socket. */
    method ModifyInterest() returns (accepted: bool)
      modifies `broken
      ensures broken == (old(broken) || !accepted)
    {
      if * { accepted := true; } else { accepted := false; }
      broken := broken || !accepted;
    }

    /** `os.sendfile` takes some of what is left, or reports that it sent nothing. */
    method SendFile(content: Bytes, offset: nat, count: nat) returns (sent: nat)
      requires offset + count <= |content| && count > 0
      modifies this
      ensures sent <= count && dry == (sent == 0)
      ensures wire == old(wire) + content[offset..offset + sent]
    {
      sent :| 0 <= sent <= count;
      wire, dry := wire + content[offset..offset + sent], sent == 0;
    }
  }

  // ----- two streams on one wire -----

  /** The bytes of the wire that are marked with `which`. */
  function Picked(wire: Bytes, marks: seq<bool>, which: bool): Bytes
    requires |marks| == |wire|
  {
    if wire == [] then []
    else
      var k := |wire| - 1;
      Picked(wire[..k], marks[..k], which) + if marks[k] == which then [wire[k]] else []
  }

  /** `wire` is made up of the bytes of `a` and of `b`, each in their order. */
  ghost predicate IsMerge(wire: Bytes, a: Bytes, b: Bytes) {
    exists marks: seq<bool> :: |marks| == |wire| && Picked(wire, marks, true) == a && Picked(wire, marks, false) == b
  }

  lemma {:induction false} PickedAppend(wire: Bytes, marks: seq<bool>, more: Bytes, mark: bool, which: bool)
    requires |marks| == |wire|
    ensures Picked(wire + more, marks + seq(|more|, _ => mark), which)
            == Picked(wire, marks, which) + if which == mark then more else []
    decreases |more|
  {
    var all := marks + seq(|more|, _ => mark);
    assert |all| == |wire + more|;
    if more == [] {
      assert wire + more == wire && all == marks;
    } else {
      var k := |more| - 1;
      assert (wire + more)[..|wire| + k] == wire + more[..k] && (wire + more)[|wire| + k] == more[k];
      assert all[..|wire| + k] == marks + seq(|more[..k]|, _ => mark) && all[|wire| + k] == mark;
      PickedAppend(wire, marks, more[..k], mark, which);
      assert more == more[..k] + [more[k]];
      var before := Picked(wire, marks, which);
      assert before + more == before + more[..k] + [more[k]] && before + [] + [] == before;
    }
  }

  lemma MergeNothing()
    ensures IsMerge([], [], [])
  {
    assert Picked([], [], true) == [];
  }

  lemma MarksGrow(wire: Bytes, marks: seq<bool>, a: Bytes, b: Bytes, more: Bytes, mark: bool)
    requires |marks| == |wire| && Picked(wire, marks, true) == a && Picked(wire, marks, false) == b
    ensures IsMerge(wire + more, if mark then a + more else a, if mark then b else b + more)
  {
    hide Picked;
    PickedAppend(wire, marks, more, mark, true);
    PickedAppend(wire, marks, more, mark, false);
    assert a + [] == a && b + [] == b;
    var all := marks + seq(|more|, _ => mark);
    assert |all| == |wire + more|;
  }

  lemma MergeGrows(wire: Bytes, a: Bytes, b: Bytes, more: Bytes)
    requires IsMerge(wire, a, b)
    ensures IsMerge(wire + more, a + more, b) && IsMerge(wire + more, a, b + more)
  {
    hide Picked;
    var marks: seq<bool> :| |marks| == |wire| && Picked(wire, marks, true) == a && Picked(wire, marks, false) == b;
    MarksGrow(wire, marks, a, b, more, true);
    MarksGrow(wire, marks, a, b, more, false);
  }

  lemma {:induction false} PickedLength(wire: Bytes, marks: seq<bool>)
    requires |marks| == |wire|
    ensures |Picked(wire, marks, true)| + |Picked(wire, marks, false)| == |wire|
    ensures Picked(wire, marks, true) == [] ==> Picked(wire, marks, false) == wire
    decreases |wire|
  {
    if wire != [] {
      var k := |wire| - 1;
      PickedLength(wire[..k], marks[..k]);
      assert wire == wire[..k] + [wire[k]];
    }
  }

  lemma MergeLength(wire: Bytes, a: Bytes, b: Bytes)
    requires IsMerge(wire, a, b)
    ensures |wire| == |a| + |b| && (a == [] ==> wire == b)
  {
    var marks: seq<bool> :| |marks| == |wire| && Picked(wire, marks, true) == a && Picked(wire, marks, false) == b;
    PickedLength(wire, marks);
  }

  method WriteStream(socket: Socket, pieces: seq<Bytes>) returns (bytesSent: nat)
    modifies socket
    ensures socket.wire == old(socket.wire) + Flatten(pieces) && bytesSent == |Flatten(pieces)|
  {
    bytesSent := 0;
    ghost var goal := socket.wire + Flatten(pieces);
    assert pieces[0..] == pieces;
    for i := 0 to |pieces|
      invariant goal == socket.wire + Flatten(pieces[i..])
      invariant bytesSent + |Flatten(pieces[i..])| == |Flatten(pieces)|
    {
      assert pieces[i..][1..] == pieces[i + 1..];
      assert socket.wire + Flatten(pieces[i..]) == socket.wire + pieces[i] + Flatten(pieces[i + 1..]);
      socket.SendAll(pieces[i]);
      bytesSent := bytesSent + |pieces[i]|;
    }
  }

  /** The file is written from the start without a gap, and to its end unless sendfile reports that
      it sent nothing. */
  method WriteFile(socket: Socket, content: Bytes, canSendfile: bool, writeChunkSize: nat) returns (bytesSent: nat)
    requires writeChunkSize > 0
    modifies socket
    ensures bytesSent <= |content| && socket.wire == old(socket.wire) + content[..bytesSent]
    ensures bytesSent == |content| || (canSendfile && socket.dry)
  {
    bytesSent := 0;
    while bytesSent < |content|
      invariant bytesSent <= |content|
      invariant socket.wire == old(socket.wire) + content[..bytesSent]
    {
      var remaining := |content| - bytesSent;
      var sent := if writeChunkSize < remaining then writeChunkSize else remaining;
      if canSendfile {
        sent := socket.SendFile(content, bytesSent, sent);
        if sent == 0 {
          assert socket.wire == old(socket.wire) + content[..bytesSent];
          return;
        }
      } else {
        socket.SendAll(content[bytesSent..bytesSent + sent]);
      }
      assert content[..bytesSent + sent] == content[..bytesSent] + content[bytesSent..bytesSent + sent];
      bytesSent := bytesSent + sent;
    }
  }

  /** `write_http_response_message`: the blocking writer puts the wire form on the socket and reports
      its length, whichever way it copies a file; only a sendfile that reports that it sent nothing
      ends it early, and then it reports what it wrote. */
  method WriteResponseMessage(socket: Socket, r: HTTPResponse, canSendfile: bool, writeChunkSize: nat)
    returns (bytesSent: nat)
    requires writeChunkSize > 0
    modifies socket
    ensures bytesSent <= |ToBytes(r)| && socket.wire == old(socket.wire) + ToBytes(r)[..bytesSent]
    ensures bytesSent == |ToBytes(r)|
            || (r.payload.File? && canSendfile && socket.dry && bytesSent >= |ResponseHead(r)|)
  {
    hide ResponseHead, Chunked.EncodePieces;
    var head := ResponseHead(r);
    socket.SendAll(head);
    bytesSent := 0;
    match r.payload {
      case Body(bytes) =>
        if bytes != [] {
          socket.SendAll(bytes);
          bytesSent := |bytes|;
        }
      case Stream(chunks) =>
        bytesSent := WriteStream(socket, Chunked.EncodePieces(chunks));
      case File(content) =>
        bytesSent := WriteFile(socket, content, canSendfile, writeChunkSize);
    }
    ghost var payload := PayloadBytes(r.payload);
    assert bytesSent <= |payload| && socket.wire == old(socket.wire) + head + payload[..bytesSent];
    assert ToBytes(r)[..|head| + bytesSent] == head + payload[..bytesSent];
    bytesSent := |head| + bytesSent;
  }
}

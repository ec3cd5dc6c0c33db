/** The framing a prepared response announces: read by the rules for messages (section 6.3 of RFC
    9112), without any limit on sizes, the wire form of a response is exactly one message, so a
    client can take the responses of a connection apart again. */
module ResponseFraming {
  import opened Wrappers
  import opened ByteStrings
  import opened Framer
  import opened Responses
  import Chunked

  // ----- lines joined and split again -----

  /** A line the handlers may put into a head: it cannot start a line end of its own. */
  predicate Clean(s: Bytes) { '\r' !in s }

  lemma CleanIsLine(s: Bytes)
    requires Clean(s)
    ensures IsLine(s)
  {
    FindIsFirst(s, CRLF, 0);
    AtCrlf(s, Find(s, CRLF, 0));
  }

  predicate CleanLines(lines: seq<Bytes>) {
    lines != [] && forall i :: 0 <= i < |lines| ==> lines[i] != [] && Clean(lines[i])
  }

  lemma {:induction false} LinesOfJoin(lines: seq<Bytes>)
    requires CleanLines(lines)
    ensures Lines(Join(lines)) == lines
    decreases |lines|
  {
    var b, line := Join(lines), lines[0];
    CleanIsLine(line);
    if |lines| > 1 {
      var rest := Join(lines[1..]);
      LinesOfJoin(lines[1..]);
      assert At(b, line, 0) && At(b, CRLF, |line|) by {
        AtIsSlice(b, line, 0);
        AtIsSlice(b, CRLF, |line|);
      }
      LineIsFound(b, line, 0);
      assert b[|line| + 2..] == rest;
      assert lines == [line] + lines[1..];
    }
  }

  /** No separator starts before the end of joined lines. */
  lemma {:induction false} NoEarlySeparator(lines: seq<Bytes>, k: nat)
    requires CleanLines(lines) && k < |Join(lines)|
    ensures !At(Join(lines) + SEPARATOR, SEPARATOR, k)
    decreases |lines|
  {
    var line := lines[0];
    var b := Join(lines) + SEPARATOR;
    AtSeparator(b, k);
    if k < |line| {
      assert b[k] == line[k] && line[k] in line;
    } else {
      var rest := Join(lines[1..]) + SEPARATOR;
      assert b == line + (CRLF + rest);
      assert lines[1] != [] && Clean(lines[1]);
      if k == |line| {
        assert b[k + 2] == rest[0] == lines[1][0] && lines[1][0] in lines[1];
      } else if k > |line| + 1 {
        var j := k - |line| - 2;
        NoEarlySeparator(lines[1..], j);
        AtSeparator(rest, j);
        assert forall i :: 0 <= i < |rest| ==> b[|line| + 2 + i] == rest[i];
      }
    }
  }

  lemma AtSeparator(b: Bytes, k: nat)
    ensures At(b, SEPARATOR, k) <==>
            k + 4 <= |b| && b[k] == '\r' && b[k + 1] == '\n' && b[k + 2] == '\r' && b[k + 3] == '\n'
  {
    if k + 4 <= |b| { assert b[k..k + 4] == [b[k], b[k + 1], b[k + 2], b[k + 3]]; }
  }

  lemma JoinedIsHeader(lines: seq<Bytes>)
    requires CleanLines(lines)
    ensures Find(Join(lines) + SEPARATOR, SEPARATOR, 0) == |Join(lines)|
  {
    var b := Join(lines) + SEPARATOR;
    forall k | 0 <= k < |Join(lines)| ensures !At(b, SEPARATOR, k) { NoEarlySeparator(lines, k); }
    AtIsSlice(b, SEPARATOR, |Join(lines)|);
    FirstIsFound(b, SEPARATOR, 0, |Join(lines)|);
  }

  // ----- the dictionary and its lines -----

  function NameOf(key: Bytes): Bytes { Lower(Strip(key, TextSpace)) }

  predicate TidyField(f: (Bytes, Bytes)) {
    && Clean(f.0) && Clean(f.1) && ':' !in f.0
    && (NameOf(f.0) == "content-length" ==> f.0 == "Content-Length")
    && (NameOf(f.0) == "transfer-encoding" ==> f.0 == "Transfer-Encoding")
  }

  /** No line breaks, and the two framing names only in the spelling the server itself uses. */
  predicate Tidy(h: Headers) { forall i :: 0 <= i < |h| ==> TidyField(h[i]) }

  function Lookup(h: Headers, key: Bytes): Option<Bytes> {
    if h == [] then None else if h[0].0 == key then Some(h[0].1) else Lookup(h[1..], key)
  }

  lemma {:induction false} AfterAssign(h: Headers, key: Bytes, value: Bytes, other: Bytes)
    requires Tidy(h) && TidyField((key, value))
    ensures Tidy(Assign(h, key, value))
    ensures Lookup(Assign(h, key, value), other) == if other == key then Some(value) else Lookup(h, other)
    decreases |h|
  {
    hide TidyField;
    if h != [] && h[0].0 != key { AfterAssign(h[1..], key, value, other); }
  }

  lemma {:induction false} AfterPop(h: Headers, key: Bytes, other: Bytes)
    requires Tidy(h)
    ensures Tidy(Pop(h, key))
    ensures Lookup(Pop(h, key), other) == if other == key then None else Lookup(h, other)
    decreases |h|
  {
    hide TidyField;
    if h != [] { AfterPop(h[1..], key, other); }
  }

  lemma {:induction false} AfterAppend(h: Headers, f: (Bytes, Bytes), other: Bytes)
    requires Tidy(h) && TidyField(f) && f.0 != other
    ensures Tidy(h + [f]) && Lookup(h + [f], other) == Lookup(h, other)
    decreases |h|
  {
    hide TidyField;
    if h != [] {
      assert (h + [f])[1..] == h[1..] + [f];
      AfterAppend(h[1..], f, other);
    }
  }

  lemma AfterSetDefault(h: Headers, key: Bytes, value: Bytes, other: Bytes)
    requires Tidy(h) && TidyField((key, value)) && key != other
    ensures Tidy(SetDefault(h, key, value)) && Lookup(SetDefault(h, key, value), other) == Lookup(h, other)
  {
    hide TidyField;
    AfterAppend(h, (key, value), other);
  }

  lemma DefaultNames()
    ensures NameOf("Date") == "date" && NameOf("Server") == "server" && NameOf("Content-Type") == "content-type"
  {
    assert Lower("Date") == "date" && Lower("Server") == "server" && Lower("Content-Type") == "content-type";
  }

  lemma FramingNames()
    ensures NameOf("Content-Length") == "content-length" && NameOf("Transfer-Encoding") == "transfer-encoding"
  {
    assert Lower("Content-Length") == "content-length";
    assert Lower("Transfer-Encoding") == "transfer-encoding";
  }

  lemma KnownNames()
    ensures NameOf("Date") == "date" && NameOf("Server") == "server" && NameOf("Content-Type") == "content-type"
    ensures NameOf("Content-Length") == "content-length" && NameOf("Transfer-Encoding") == "transfer-encoding"
  {
    hide NameOf;
    DefaultNames();
    FramingNames();
  }

  /** A header line reads back as its name and its stripped value. */
  lemma HeaderLineReads(f: (Bytes, Bytes))
    requires ':' !in f.0
    ensures var line := HeaderLine(f);
            ':' in line && FieldName(line) == NameOf(f.0) && FieldValue(line) == Strip(f.1, TextSpace)
  {
    var line := HeaderLine(f);
    assert line[..|f.0|] == f.0;
    IndexOfIs(line, ':', |f.0|);
    assert line[|f.0| + 1..] == " " + f.1;
    assert (" " + f.1)[1..] == f.1;
  }

  lemma {:induction false} ScanFinds(h: Headers, name: Bytes, key: Bytes)
    requires Tidy(h) && NameOf(key) == name
    requires forall i :: 0 <= i < |h| && NameOf(h[i].0) == name ==> h[i].0 == key
    ensures ScanFor(HeaderLines(h), name) ==
            match Lookup(h, key) case None => NotFound case Some(v) => Found(Strip(v, TextSpace))
    decreases |h|
  {
    hide NameOf, FieldName, FieldValue, HeaderLine, Strip;
    if h != [] {
      HeaderLineReads(h[0]);
      assert HeaderLines(h)[0] == HeaderLine(h[0]) && HeaderLines(h)[1..] == HeaderLines(h[1..]);
      assert Tidy(h[1..]) && forall i :: 0 <= i < |h[1..]| ==> h[1..][i] == h[i + 1];
      ScanFinds(h[1..], name, key);
    }
  }

  lemma {:induction false} ScanIsNeverBad(h: Headers, name: Bytes)
    requires Tidy(h)
    ensures !ScanFor(HeaderLines(h), name).BadLine?
    decreases |h|
  {
    hide NameOf, FieldName, FieldValue, HeaderLine, Strip;
    if h != [] {
      HeaderLineReads(h[0]);
      assert HeaderLines(h)[0] == HeaderLine(h[0]) && HeaderLines(h)[1..] == HeaderLines(h[1..]);
      ScanIsNeverBad(h[1..], name);
    }
  }

  // ----- what a prepared head announces -----

  lemma DefaultsAreTidy(r: HTTPResponse)
    requires Clean(r.date)
    ensures TidyField(("Date", r.date)) && TidyField(("Server", SERVER_NAME))
    ensures TidyField(("Content-Type", "text/plain; charset=utf-8")) && TidyField(("Transfer-Encoding", "chunked"))
  {
    hide NameOf;
    KnownNames();
    assert |"date"| != |"content-length"| && |"server"| != |"content-length"| && |"content-type"| != |"content-length"|;
  }

  lemma DecimalReads(n: nat)
    ensures Strip(Decimal(n), TextSpace) == Decimal(n) && Digits(Decimal(n), 10, 0) == Some(n)
  {
    hide Numeral;
    NumeralIsNumeral(n, 10);
    DigitsOfNumeral(n, 10);
    var s := Decimal(n);
    assert IsDigitChar(s[0]) && IsDigitChar(s[|s| - 1]);
  }

  lemma DecimalIsTidy(n: nat)
    ensures TidyField(("Content-Length", Decimal(n)))
  {
    hide NameOf, Numeral, ParseInt;
    KnownNames();
    NumeralIsNumeral(n, 10);
    var s := Decimal(n);
    NumeralIsClean(s);
    assert |"content-length"| != |"transfer-encoding"|;
  }

  /** A stream is announced as chunked and without a length, anything else with the length of its
      body (or the override) and without a transfer coding. */
  lemma PreparedFraming(r: HTTPResponse)
    requires Tidy(r.headers) && Clean(r.date)
    requires !r.payload.Stream? ==> Lookup(r.headers, "Transfer-Encoding").None?
    ensures Tidy(PreparedHeaders(r))
    ensures r.payload.Stream? ==>
              Lookup(PreparedHeaders(r), "Transfer-Encoding") == Some("chunked")
              && Lookup(PreparedHeaders(r), "Content-Length") == None
    ensures !r.payload.Stream? ==>
              Lookup(PreparedHeaders(r), "Transfer-Encoding") == None
              && Lookup(PreparedHeaders(r), "Content-Length")
                 == Some(Decimal(if r.lengthOverride.Some? then r.lengthOverride.value else PayloadLength(r.payload)))
  {
    DefaultsAreTidy(r);
    hide TidyField, Decimal, SetDefault, Assign, Pop, Lookup;
    var h1 := SetDefault(r.headers, "Date", r.date);
    var h2 := SetDefault(h1, "Server", SERVER_NAME);
    var h3 := SetDefault(h2, "Content-Type", "text/plain; charset=utf-8");
    AfterSetDefault(r.headers, "Date", r.date, "Transfer-Encoding");
    AfterSetDefault(h1, "Server", SERVER_NAME, "Transfer-Encoding");
    AfterSetDefault(h2, "Content-Type", "text/plain; charset=utf-8", "Transfer-Encoding");
    if r.payload.Stream? {
      AfterPop(h3, "Content-Length", "Content-Length");
      AfterAssign(Pop(h3, "Content-Length"), "Transfer-Encoding", "chunked", "Content-Length");
      AfterAssign(Pop(h3, "Content-Length"), "Transfer-Encoding", "chunked", "Transfer-Encoding");
    } else {
      var n := if r.lengthOverride.Some? then r.lengthOverride.value else PayloadLength(r.payload);
      DecimalIsTidy(n);
      AfterAssign(h3, "Content-Length", Decimal(n), "Content-Length");
      AfterAssign(h3, "Content-Length", Decimal(n), "Transfer-Encoding");
    }
  }

  lemma StatusLineIsClean(r: HTTPResponse)
    requires Clean(r.reason)
    ensures StatusLine(r) != [] && Clean(StatusLine(r))
  {
    hide ReasonPhrase, Numeral, Clean;
    NumeralIsNumeral(r.status, 10);
    var number := Decimal(r.status);
    NumeralIsClean(number);
    ReasonIsClean(r.status);
    var reason := if r.reason == [] then ReasonPhrase(r.status) else r.reason;
    LiteralsAreClean();
    CleanConcat("HTTP/1.1 ", number);
    CleanConcat("HTTP/1.1 " + number, " ");
    CleanConcat("HTTP/1.1 " + number + " ", reason);
  }

  lemma NumeralIsClean(s: Bytes)
    requires IsNumeral(s)
    ensures Clean(s)
  {
    assert forall i :: 0 <= i < |s| ==> IsDigitChar(s[i]);
  }

  lemma LiteralsAreClean()
    ensures Clean("HTTP/1.1 ") && Clean(" ")
  {}

  lemma CleanConcat(a: Bytes, b: Bytes)
    ensures Clean(a) && Clean(b) ==> Clean(a + b)
  {}

  lemma ReasonIsClean(status: nat)
    ensures Clean(ReasonPhrase(status))
  {
    hide ReasonPhrase;
    if status < 403 {
      LowReasonIsClean(status);
    } else if status < 431 {
      MiddleReasonIsClean(status);
    } else if status < 501 {
      HighReasonIsClean(status);
    } else {
      LastReasonIsClean(status);
    }
  }

  lemma LowReasonIsClean(status: nat)
    requires status < 403
    ensures Clean(ReasonPhrase(status))
  {}

  lemma MiddleReasonIsClean(status: nat)
    requires 403 <= status < 431
    ensures Clean(ReasonPhrase(status))
  {}

  lemma HighReasonIsClean(status: nat)
    requires 431 <= status < 501
    ensures Clean(ReasonPhrase(status))
  {}

  lemma LastReasonIsClean(status: nat)
    requires 501 <= status
    ensures Clean(ReasonPhrase(status))
  {}

  lemma HeadLinesAreClean(r: HTTPResponse)
    requires Clean(r.reason) && Tidy(PreparedHeaders(r))
    ensures CleanLines([StatusLine(r)] + HeaderLines(PreparedHeaders(r)))
  {
    StatusLineIsClean(r);
    hide PreparedHeaders, NameOf, StatusLine;
    var lines := [StatusLine(r)] + HeaderLines(PreparedHeaders(r));
    forall i | 0 <= i < |lines| ensures lines[i] != [] && Clean(lines[i]) {
      if i > 0 { assert TidyField(PreparedHeaders(r)[i - 1]); }
    }
  }

  /** The header scanners read a prepared head the way it was meant. */
  lemma HeadIsRead(r: HTTPResponse, header: Bytes)
    requires Tidy(r.headers) && Clean(r.date) && Clean(r.reason)
    requires !r.payload.Stream? ==> Lookup(r.headers, "Transfer-Encoding").None? && r.lengthOverride.None?
    requires header == Join([StatusLine(r)] + HeaderLines(PreparedHeaders(r)))
    ensures SaysChunked(ScanFor(FieldsOf(header), "transfer-encoding")) == r.payload.Stream?
    ensures ScanFor(FieldsOf(header), "content-length")
            == if r.payload.Stream? then NotFound else Found(Decimal(PayloadLength(r.payload)))
  {
    hide PreparedHeaders, NameOf, Decimal, Strip, ScanFor, Lookup, StatusLine, Lower, HeaderLines, Digits;
    var h := PreparedHeaders(r);
    PreparedFraming(r);
    HeadLinesAreClean(r);
    LinesOfJoin([StatusLine(r)] + HeaderLines(h));
    assert ([StatusLine(r)] + HeaderLines(h))[1..] == HeaderLines(h);
    KnownNames();
    TidyNames(h);
    ScanFinds(h, "content-length", "Content-Length");
    ScanFinds(h, "transfer-encoding", "Transfer-Encoding");
    ChunkedIsSaid();
    if !r.payload.Stream? { DecimalReads(PayloadLength(r.payload)); }
  }

  lemma TidyNames(h: Headers)
    requires Tidy(h)
    ensures forall i :: 0 <= i < |h| && NameOf(h[i].0) == "content-length" ==> h[i].0 == "Content-Length"
    ensures forall i :: 0 <= i < |h| && NameOf(h[i].0) == "transfer-encoding" ==> h[i].0 == "Transfer-Encoding"
  {
    hide NameOf;
    forall i | 0 <= i < |h| ensures TidyField(h[i]) {}
  }

  lemma ChunkedIsSaid()
    ensures Strip("chunked", TextSpace) == "chunked" && SaysChunked(Found("chunked"))
  {
    assert Lower("chunked") == "chunked";
    assert At("chunked", "chunked", 0);
  }

  /** What a handler has to keep to: tidy headers, no override of the length, no framing header
      of its own, and non-empty stream chunks. */
  predicate WellBehaved(r: HTTPResponse) {
    && Tidy(r.headers) && Clean(r.date) && Clean(r.reason)
    && Sendable(r)
    && (!r.payload.Stream? ==> Lookup(r.headers, "Transfer-Encoding").None? && r.lengthOverride.None?)
  }

  /** The length of the message at the front of what a client has received, by the framing rules and
      without limits; `None` while it is not complete. */
  function ClientLength(wire: Bytes): Option<nat> {
    var end := Find(wire, SEPARATOR, 0);
    if end < 0 then None
    else
      var fields, body := FieldsOf(wire[..end]), wire[end + 4..];
      var length := ScanFor(fields, "content-length");
      if SaysChunked(ScanFor(fields, "transfer-encoding")) then
        match Chunked.FrameUnlimited(body)
        case Complete(n) => Some(end + 4 + n)
        case _ => None
      else if !length.Found? then None
      else
        match Digits(length.value, 10, 0)
        case Some(n) => if |body| < n then None else Some(end + 4 + n)
        case None => None
  }

  lemma ClientLengthFits(wire: Bytes)
    ensures ClientLength(wire).Some? ==> 4 <= ClientLength(wire).value <= |wire|
  {
    hide ScanFor, FieldsOf, Chunked.FrameChunks, Digits, SaysChunked;
    var end := Find(wire, SEPARATOR, 0);
    if end >= 0 {
      var body := wire[end + 4..];
      if Chunked.FrameUnlimited(body).Complete? { Chunked.FrameChunksFits(body, 0, -|body|); }
    }
  }

  /** Main result: whatever follows it on the wire, the wire form of a response is cut off exactly by
      the framing rules, for every payload form and of any size. */
  lemma ResponseFramesItself(r: HTTPResponse, more: Bytes)
    requires WellBehaved(r)
    ensures ClientLength(ToBytes(r) + more) == Some(|ToBytes(r)|)
  {
    hide PreparedHeaders, StatusLine, HeaderLines, Join, Chunked.FrameChunks, Chunked.Encode, Find, Lookup;
    hide ScanFor, FieldsOf, Digits, SaysChunked, Numeral;
    var header := Join([StatusLine(r)] + HeaderLines(PreparedHeaders(r)));
    var body := PayloadBytes(r.payload);
    PreparedFraming(r);
    HeadLinesAreClean(r);
    JoinedIsHeader([StatusLine(r)] + HeaderLines(PreparedHeaders(r)));
    HeadIsRead(r, header);
    FindExtends(header + SEPARATOR, header + SEPARATOR + (body + more), SEPARATOR, 0);
    var m := header + SEPARATOR + (body + more);
    assert ToBytes(r) + more == m;
    assert m[..|header|] == header && m[|header| + 4..] == body + more;
    if r.payload.Stream? {
      Chunked.FilledPrintUnlimited(r.payload.chunks, more);
    } else {
      DecimalReads(|body|);
    }
  }

  /** A client that cuts what it received by the framing rules. */
  function TakeApart(wire: Bytes): seq<Bytes>
    decreases |wire|
  {
    match ClientLength(wire)
    case Some(n) => ClientLengthFits(wire); [wire[..n]] + TakeApart(wire[n..])
    case None => []
  }

  function WireForms(rs: seq<HTTPResponse>): seq<Bytes> {
    if rs == [] then [] else [ToBytes(rs[0])] + WireForms(rs[1..])
  }

  /** Responses sent one after the other are told apart again. */
  lemma {:induction false} ResponsesAreToldApart(rs: seq<HTTPResponse>)
    requires forall i :: 0 <= i < |rs| ==> WellBehaved(rs[i])
    ensures TakeApart(Flatten(WireForms(rs))) == WireForms(rs)
    decreases |rs|
  {
    hide ToBytes, WellBehaved, ClientLength;
    if rs == [] {
      ClientLengthFits([]);
    } else {
      var first, rest := ToBytes(rs[0]), Flatten(WireForms(rs[1..]));
      var wire := Flatten(WireForms(rs));
      assert WireForms(rs)[1..] == WireForms(rs[1..]);
      assert wire == first + rest;
      ResponseFramesItself(rs[0], rest);
      ClientLengthFits(wire);
      assert wire[..|first|] == first && wire[|first|..] == rest;
      ResponsesAreToldApart(rs[1..]);
    }
  }
}

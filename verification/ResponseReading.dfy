/** What a client reads in the head of a response: the status, and every field the handler set or the
    server filled in. */
module ResponseReading {
  import opened Wrappers
  import opened ByteStrings
  import opened TextReading
  import opened Framer
  import opened Responses
  import opened ResponseFraming
  import Connection
  import Chunked

  // ----- the status line -----

  /** The phrase printed behind the status. */
  function Phrase(r: HTTPResponse): Bytes { if r.reason == [] then ReasonPhrase(r.status) else r.reason }

  lemma NumeralHasNoBlank(s: Bytes)
    requires IsNumeral(s)
    ensures ' ' !in s
  {
    forall i | 0 <= i < |s| ensures s[i] != ' ' { assert IsDigitChar(s[i]); }
  }

  lemma StatusLineParts(r: HTTPResponse)
    ensures StatusLine(r) == "HTTP/1.1" + " " + Decimal(r.status) + " " + Phrase(r)
  {
    hide Numeral, ReasonPhrase;
    assert "HTTP/1.1 " == "HTTP/1.1" + " ";
  }

  /** The status line is the version, the number of the status, and the phrase. */
  lemma StatusLineIsRead(r: HTTPResponse)
    ensures var line := StatusLine(r);
            var parts := SplitOn(line, ' ');
            && |parts| >= 3 && parts[0] == "HTTP/1.1" && Digits(parts[1], 10, 0) == Some(r.status)
            && line == parts[0] + " " + parts[1] + " " + Phrase(r)
  {
    hide Numeral, Digits, SplitOn, StatusLine, Phrase, IsNumeral;
    NumeralIsNumeral(r.status, 10);
    DigitsOfNumeral(r.status, 10);
    NumeralHasNoBlank(Decimal(r.status));
    StatusLineParts(r);
    NoBlankInVersion();
    WordsAreSplit("HTTP/1.1", Decimal(r.status), Phrase(r));
  }

  lemma NoBlankInVersion()
    ensures ' ' !in "HTTP/1.1"
  {}

  /** The phrases the server knows tell their statuses apart. */
  lemma PhrasesDiffer(s: nat, t: nat)
    requires ReasonPhrase(s) == ReasonPhrase(t) && ReasonPhrase(s) != "Unknown"
    ensures s == t
  {
    PhraseTable(s);
    PhraseTable(t);
  }

  lemma PhraseTable(s: nat)
    ensures var p := ReasonPhrase(s);
            && (s == 200 <==> |p| == 2) && (s == 100 <==> |p| == 8) && (s == 404 <==> p == "Not Found")
            && (s == 403 <==> p == "Forbidden") && (s == 304 <==> p == "Not Modified")
            && (s == 400 <==> p == "Bad Request") && (s == 405 <==> p == "Method Not Allowed")
            && (s == 408 <==> p == "Request Timeout") && (s == 413 <==> p == "Payload Too Large")
            && (s == 414 <==> p == "URI Too Long") && (s == 431 <==> p == "Request Header Fields Too Large")
            && (s == 500 <==> p == "Internal Server Error") && (s == 501 <==> p == "Not Implemented")
            && (s == 503 <==> p == "Service Unavailable") && (s == 505 <==> p == "HTTP Version Not Supported")
  {}

  // ----- the fields -----

  /** The stripped value of the first field of a name, in any case. */
  function FirstNamed(h: Headers, name: Bytes): Option<Bytes> {
    if h == [] then None
    else if NameOf(h[0].0) == name then Some(Strip(h[0].1, TextSpace))
    else FirstNamed(h[1..], name)
  }

  lemma {:induction false} ScanIsFirstNamed(h: Headers, name: Bytes)
    requires Tidy(h)
    ensures ScanFor(HeaderLines(h), name)
            == match FirstNamed(h, name) case None => NotFound case Some(v) => Found(v)
    decreases |h|
  {
    hide NameOf, FieldName, FieldValue, HeaderLine, Strip;
    if h != [] {
      HeaderLineReads(h[0]);
      assert HeaderLines(h)[0] == HeaderLine(h[0]) && HeaderLines(h)[1..] == HeaderLines(h[1..]);
      assert Tidy(h[1..]) && forall i :: 0 <= i < |h[1..]| ==> h[1..][i] == h[i + 1];
      ScanIsFirstNamed(h[1..], name);
    }
  }

  lemma {:induction false} NamedAfterAppend(h: Headers, f: (Bytes, Bytes), name: Bytes)
    ensures FirstNamed(h + [f], name)
            == if FirstNamed(h, name).Some? then FirstNamed(h, name)
               else if NameOf(f.0) == name then Some(Strip(f.1, TextSpace)) else None
    decreases |h|
  {
    hide NameOf, Strip;
    var all := h + [f];
    if h == [] {
      assert all[0] == f && all[1..] == [];
    } else {
      assert all[0] == h[0] && all[1..] == h[1..] + [f];
      NamedAfterAppend(h[1..], f, name);
    }
  }

  lemma {:induction false} KeyIsNamed(h: Headers, key: Bytes)
    requires Has(h, key)
    ensures FirstNamed(h, NameOf(key)).Some?
    decreases |h|
  {
    hide NameOf, Strip;
    if h[0].0 != key {
      var i :| 0 <= i < |h| && h[i].0 == key;
      assert h[1..][i - 1].0 == key;
      KeyIsNamed(h[1..], key);
    }
  }

  lemma NamedAfterSetDefault(h: Headers, key: Bytes, value: Bytes, name: Bytes)
    ensures FirstNamed(SetDefault(h, key, value), name)
            == if FirstNamed(h, name).None? && NameOf(key) == name then Some(Strip(value, TextSpace))
               else FirstNamed(h, name)
  {
    hide NameOf, Strip, FirstNamed;
    NamedAfterAppend(h, (key, value), name);
    if Has(h, key) { KeyIsNamed(h, key); }
  }

  lemma {:induction false} NamedAfterAssign(h: Headers, key: Bytes, value: Bytes, name: Bytes)
    requires NameOf(key) != name
    ensures FirstNamed(Assign(h, key, value), name) == FirstNamed(h, name)
    decreases |h|
  {
    hide NameOf, Strip;
    if h != [] && h[0].0 != key { NamedAfterAssign(h[1..], key, value, name); }
  }

  lemma {:induction false} NamedAfterPop(h: Headers, key: Bytes, name: Bytes)
    requires NameOf(key) != name
    ensures FirstNamed(Pop(h, key), name) == FirstNamed(h, name)
    decreases |h|
  {
    hide NameOf, Strip;
    if h != [] { NamedAfterPop(h[1..], key, name); }
  }

  /** What the server fills in where the handler set nothing. */
  function Filled(r: HTTPResponse, name: Bytes): Option<Bytes> {
    if name == "date" then Some(Strip(r.date, TextSpace))
    else if name == "server" then Some("CustomHTTPServer/2.0")
    else if name == "content-type" then Some("text/plain; charset=utf-8")
    else None
  }

  lemma DefaultsAreBare()
    ensures Strip(SERVER_NAME, TextSpace) == "CustomHTTPServer/2.0"
    ensures Strip("text/plain; charset=utf-8", TextSpace) == "text/plain; charset=utf-8"
  {}

  lemma NamedAfterPreparing(r: HTTPResponse, name: Bytes)
    requires name != "content-length" && name != "transfer-encoding"
    ensures FirstNamed(PreparedHeaders(r), name)
            == if FirstNamed(r.headers, name).Some? then FirstNamed(r.headers, name) else Filled(r, name)
  {
    KnownNames();
    DefaultsAreBare();
    hide NameOf, Strip, FirstNamed, SetDefault, Assign, Pop, Numeral, SERVER_NAME;
    var h1 := SetDefault(r.headers, "Date", r.date);
    var h2 := SetDefault(h1, "Server", SERVER_NAME);
    var h3 := SetDefault(h2, "Content-Type", "text/plain; charset=utf-8");
    NamedAfterSetDefault(r.headers, "Date", r.date, name);
    NamedAfterSetDefault(h1, "Server", SERVER_NAME, name);
    NamedAfterSetDefault(h2, "Content-Type", "text/plain; charset=utf-8", name);
    NamedAfterPop(h3, "Content-Length", name);
    var length := Decimal(if r.lengthOverride.Some? then r.lengthOverride.value
                          else if r.payload.Stream? then 0 else PayloadLength(r.payload));
    NamedAfterAssign(h3, "Content-Length", length, name);
    NamedAfterAssign(Pop(h3, "Content-Length"), "Transfer-Encoding", "chunked", name);
  }

  /** No field is printed twice. */
  predicate Distinct(h: Headers) { forall i, j :: 0 <= i < j < |h| ==> h[i].0 != h[j].0 }

  lemma {:induction false} DistinctAfterAssign(h: Headers, key: Bytes, value: Bytes)
    requires Distinct(h)
    ensures Distinct(Assign(h, key, value))
    ensures forall other :: Has(Assign(h, key, value), other) <==> Has(h, other) || other == key
    decreases |h|
  {
    var after := Assign(h, key, value);
    HasFirst(after);
    if h != [] {
      HasFirst(h);
      if h[0].0 != key {
        DistinctAfterAssign(h[1..], key, value);
        HeadDiffers(h, Assign(h[1..], key, value), key);
      }
    }
  }

  lemma HeadDiffers(h: Headers, rest: Headers, key: Bytes)
    requires Distinct(h) && h != [] && h[0].0 != key
    requires forall other :: Has(rest, other) ==> Has(h[1..], other) || other == key
    ensures forall i :: 0 <= i < |rest| ==> rest[i].0 != h[0].0
  {
    forall i | 0 <= i < |rest| ensures rest[i].0 != h[0].0 {
      assert Has(rest, rest[i].0);
      if rest[i].0 != key {
        var j :| 0 <= j < |h[1..]| && h[1..][j].0 == rest[i].0;
        assert h[0].0 != h[j + 1].0;
      }
    }
  }

  lemma HasFirst(h: Headers)
    requires h != []
    ensures forall other :: Has(h, other) <==> h[0].0 == other || Has(h[1..], other)
  {
    forall other ensures Has(h, other) <==> h[0].0 == other || Has(h[1..], other) {
      if i :| 0 <= i < |h[1..]| && h[1..][i].0 == other { assert h[i + 1].0 == other; }
      if i :| 0 <= i < |h| && h[i].0 == other { assert i > 0 ==> h[1..][i - 1].0 == other; }
    }
  }

  lemma {:induction false} DistinctAfterPop(h: Headers, key: Bytes)
    requires Distinct(h)
    ensures Distinct(Pop(h, key)) && forall other :: Has(Pop(h, key), other) ==> Has(h, other)
    decreases |h|
  {
    if h != [] {
      var rest := Pop(h[1..], key);
      DistinctAfterPop(h[1..], key);
      HasFirst(h);
      HasFirst([h[0]] + rest);
      if h[0].0 != key { HeadDiffers(h, rest, key); }
    }
  }

  /** A response whose fields are distinct is printed with distinct fields. */
  lemma PreparedFieldsAreDistinct(r: HTTPResponse)
    requires Distinct(r.headers)
    ensures Distinct(PreparedHeaders(r))
  {
    var h := SetDefault(SetDefault(SetDefault(r.headers, "Date", r.date), "Server", SERVER_NAME),
                        "Content-Type", "text/plain; charset=utf-8");
    DistinctAfterSetDefault(r.headers, "Date", r.date);
    DistinctAfterSetDefault(SetDefault(r.headers, "Date", r.date), "Server", SERVER_NAME);
    DistinctAfterSetDefault(SetDefault(SetDefault(r.headers, "Date", r.date), "Server", SERVER_NAME),
                            "Content-Type", "text/plain; charset=utf-8");
    DistinctAfterPop(h, "Content-Length");
    DistinctAfterAssign(Pop(h, "Content-Length"), "Transfer-Encoding", "chunked");
    var length := Decimal(if r.lengthOverride.Some? then r.lengthOverride.value
                          else if r.payload.Stream? then 0 else PayloadLength(r.payload));
    DistinctAfterAssign(h, "Content-Length", length);
    hide Distinct, SetDefault, Assign, Pop, Numeral, SERVER_NAME;
  }

  lemma DistinctAfterSetDefault(h: Headers, key: Bytes, value: Bytes)
    requires Distinct(h)
    ensures Distinct(SetDefault(h, key, value))
  {}

  // ----- the whole head -----

  /** The head of a response, cut off by its separator and split into lines. */
  lemma HeadIsSplit(r: HTTPResponse, more: Bytes)
    requires Tidy(r.headers) && Clean(r.date) && Clean(r.reason)
    requires !r.payload.Stream? ==> Lookup(r.headers, "Transfer-Encoding").None?
    ensures var wire := ToBytes(r) + more;
            var end := Find(wire, SEPARATOR, 0);
            && end >= 0 && Lines(wire[..end])[0] == StatusLine(r)
            && FieldsOf(wire[..end]) == HeaderLines(PreparedHeaders(r)) && Tidy(PreparedHeaders(r))
  {
    hide PreparedHeaders, StatusLine, HeaderLines, Join, Find, Lookup, PayloadBytes, NameOf;
    var lines := [StatusLine(r)] + HeaderLines(PreparedHeaders(r));
    var header := Join(lines);
    PreparedFraming(r);
    HeadLinesAreClean(r);
    LinesOfJoin(lines);
    JoinedIsHeader(lines);
    var rest := PayloadBytes(r.payload) + more;
    FindExtends(header + SEPARATOR, header + SEPARATOR + rest, SEPARATOR, 0);
    assert ToBytes(r) + more == header + SEPARATOR + rest;
    assert (header + SEPARATOR + rest)[..|header|] == header;
    assert lines[1..] == HeaderLines(PreparedHeaders(r));
  }

  /** Main result: a client reads in the head what the handler put into the response. The status is
      its status; any field but the two for framing has the value the handler gave it, and where it
      gave none the value the server fills in, if any. */
  lemma ResponseIsReadBack(r: HTTPResponse, more: Bytes, name: Bytes)
    requires Tidy(r.headers) && Clean(r.date) && Clean(r.reason)
    requires !r.payload.Stream? ==> Lookup(r.headers, "Transfer-Encoding").None?
    requires name != "content-length" && name != "transfer-encoding"
    ensures var wire := ToBytes(r) + more;
            var end := Find(wire, SEPARATOR, 0);
            && end >= 0
            && (var parts := SplitOn(Lines(wire[..end])[0], ' ');
                |parts| >= 3 && parts[0] == "HTTP/1.1" && Digits(parts[1], 10, 0) == Some(r.status))
            && ScanFor(FieldsOf(wire[..end]), name)
               == (var given := FirstNamed(r.headers, name);
                   var value := if given.Some? then given else Filled(r, name);
                   if value.Some? then Found(value.value) else NotFound)
  {
    hide ToBytes, StatusLine, SplitOn, Digits, FirstNamed, Filled, PreparedHeaders, HeaderLines, ScanFor, Tidy, Lookup;
    HeadIsSplit(r, more);
    StatusLineIsRead(r);
    NamedAfterPreparing(r, name);
    ScanIsFirstNamed(PreparedHeaders(r), name);
  }

  // ----- the body -----

  /** What a client takes from the bytes behind the head: the payload as it is, or for a stream the
      content of a sentence of the chunked grammar. */
  ghost predicate Carries(body: Bytes, p: Payload) {
    match p
    case Body(bytes) => body == bytes
    case File(content) => body == content
    case Stream(chunks) => exists c :: Chunked.WellFormed(c) && Chunked.Print(c) == body
                                       && Chunked.Content(c) == Flatten(chunks)
  }

  /** The bytes behind the head are the payload, of any size. */
  lemma BodyIsReadBack(r: HTTPResponse)
    requires Tidy(r.headers) && Clean(r.date) && Clean(r.reason) && Sendable(r)
    requires !r.payload.Stream? ==> Lookup(r.headers, "Transfer-Encoding").None?
    ensures var end := Find(ToBytes(r), SEPARATOR, 0);
            0 <= end <= |ToBytes(r)| - 4 && Carries(ToBytes(r)[end + 4..], r.payload)
  {
    hide PreparedHeaders, StatusLine, HeaderLines, Join, Find, Lookup, Tidy, Chunked.WellFormed, Chunked.Print,
         Chunked.Content, Chunked.Encode, Flatten;
    var lines := [StatusLine(r)] + HeaderLines(PreparedHeaders(r));
    var header, body := Join(lines), PayloadBytes(r.payload);
    PreparedFraming(r);
    HeadLinesAreClean(r);
    JoinedIsHeader(lines);
    FindExtends(header + SEPARATOR, header + SEPARATOR + body, SEPARATOR, 0);
    assert (header + SEPARATOR + body)[|header| + 4..] == body;
    if r.payload.Stream? { Chunked.SentenceIsEncoded(r.payload.chunks); }
  }

  // ----- the interim response -----

  /** `100 Continue` is a head of its own with nothing but a status line. */
  lemma ContinueIsReadBack(more: Bytes)
    ensures var wire := Connection.CONTINUE + more;
            var end := Find(wire, SEPARATOR, 0);
            && end + 4 == |Connection.CONTINUE| && |FieldsOf(wire[..end])| == 0
            && (var parts := SplitOn(Lines(wire[..end])[0], ' ');
                |parts| == 3 && parts[0] == "HTTP/1.1" && Digits(parts[1], 10, 0) == Some(100))
  {
    var line: Bytes := "HTTP/1.1 100 Continue";
    assert Connection.CONTINUE == line + SEPARATOR;
    assert CleanLines([line]) by { assert line != [] && Clean(line); }
    JoinedIsHeader([line]);
    FindExtends(line + SEPARATOR, line + SEPARATOR + more, SEPARATOR, 0);
    assert (line + SEPARATOR + more)[..|line|] == line;
    LinesOfJoin([line]);
    ContinueParts();
    hide Find, Lines, SplitOn, Digits;
    assert Lines(line) == [line];
  }

  lemma ContinueParts()
    ensures SplitOn("HTTP/1.1 100 Continue", ' ') == ["HTTP/1.1", "100", "Continue"]
    ensures Digits("100", 10, 0) == Some(100)
  {
    ContinueWords();
    hide SplitOn, Digits;
    NoBlankInVersion();
    WordsAreSplit("HTTP/1.1", "100", "Continue");
    NoSplit("Continue");
    ContinueDigits();
  }

  lemma ContinueWords()
    ensures "HTTP/1.1 100 Continue" == "HTTP/1.1" + " " + "100" + " " + "Continue"
    ensures ' ' !in "100" && ' ' !in "Continue"
  {}

  lemma ContinueDigits()
    ensures Digits("100", 10, 0) == Some(100)
  {
    assert "100"[1..] == "00" && "00"[1..] == "0";
    assert Digits("0", 10, 10) == Some(100);
  }
}

/** Concrete messages that show where the side conditions of the framing results are needed. */
module Witnesses {
  import opened Wrappers
  import opened ByteStrings
  import opened Framer
  import opened RequestParser
  import opened ResponseFraming
  import Chunked
  import Engine
  import EngineTheorems
  import Responses

  const REQUEST_LINE: Bytes := "GET / HTTP/1.1"

  /** The header section of a request with the given fields. */
  function HeaderOf(fields: Responses.Headers): Bytes {
    Responses.Join([REQUEST_LINE] + Responses.HeaderLines(fields))
  }

  lemma RequestLineSplits()
    ensures SplitOn(REQUEST_LINE, ' ') == ["GET", "/", "HTTP/1.1"]
  {
    hide SplitOn;
    SplitAt(REQUEST_LINE, 3);
    assert REQUEST_LINE[..3] == "GET" && REQUEST_LINE[4..] == "/ HTTP/1.1";
    SplitAt("/ HTTP/1.1", 1);
    assert "/ HTTP/1.1"[..1] == "/" && "/ HTTP/1.1"[2..] == "HTTP/1.1";
    NoSplit("HTTP/1.1");
  }

  lemma GetIsKnown()
    ensures Upper("GET") == "GET" && Upper("GET") in KNOWN_METHODS
  {}

  lemma RequestLineParses(urlsplit: UrlSplit)
    requires urlsplit("/").Some?
    ensures ParseRequestLine(REQUEST_LINE, urlsplit) == Ok(RequestLine("GET", "/", "HTTP/1.1", urlsplit("/").value))
  {
    hide SplitOn, Upper, KNOWN_METHODS;
    RequestLineSplits();
    GetIsKnown();
  }

  lemma HeaderReads(fields: Responses.Headers)
    requires Tidy(fields)
    ensures Lines(HeaderOf(fields)) == [REQUEST_LINE] + Responses.HeaderLines(fields)
    ensures FieldsOf(HeaderOf(fields)) == Responses.HeaderLines(fields)
    ensures |HeaderOf(fields)| + 4 <= MAX_HEADER_BYTES ==> IsHeader(HeaderOf(fields))
  {
    hide NameOf;
    var lines := [REQUEST_LINE] + Responses.HeaderLines(fields);
    forall i | 0 <= i < |lines| ensures lines[i] != [] && Clean(lines[i]) {
      if i > 0 { assert TidyField(fields[i - 1]); }
    }
    LinesOfJoin(lines);
    JoinedIsHeader(lines);
    assert lines[1..] == Responses.HeaderLines(fields);
  }

  // ----- a chunked keep-alive request of any size -----

  const CHUNKED_FIELDS: Responses.Headers := [("Host", "a"), ("Transfer-Encoding", "chunked")]

  lemma FieldNames()
    ensures NameOf("Host") == "host" && NameOf("Content-Length") == "content-length"
    ensures NameOf("Transfer-Encoding") == "transfer-encoding"
    ensures Strip("a", TextSpace) == "a" && Strip("chunked", TextSpace) == "chunked"
    ensures Strip("0", TextSpace) == "0" && Strip("1", TextSpace) == "1"
  {
    KnownNames();
    assert Lower("Host") == "host";
  }

  lemma ChunkedFieldsAreTidy()
    ensures Tidy(CHUNKED_FIELDS)
  {
    FieldNames();
    hide NameOf;
    assert TidyField(CHUNKED_FIELDS[0]) && TidyField(CHUNKED_FIELDS[1]);
  }

  lemma ChunkedFieldsScan()
    ensures ScanFor(Responses.HeaderLines(CHUNKED_FIELDS), "transfer-encoding") == Found("chunked")
    ensures ScanFor(Responses.HeaderLines(CHUNKED_FIELDS), "content-length") == NotFound
    ensures !ScanFor(Responses.HeaderLines(CHUNKED_FIELDS), "expect").BadLine?
  {
    ChunkedFieldsAreTidy();
    FieldNames();
    hide NameOf, Strip, ScanFor;
    ScanFinds(CHUNKED_FIELDS, "transfer-encoding", "Transfer-Encoding");
    ScanFinds(CHUNKED_FIELDS, "content-length", "Content-Length");
    ScanIsNeverBad(CHUNKED_FIELDS, "expect");
    assert CHUNKED_FIELDS[1..][1..] == [];
  }

  lemma ChunkedHeaderIsShort()
    ensures |HeaderOf(CHUNKED_FIELDS)| == 51
  {
    var lines := [REQUEST_LINE] + Responses.HeaderLines(CHUNKED_FIELDS);
    assert lines[1..] == Responses.HeaderLines(CHUNKED_FIELDS) && |lines[1]| == 7 && |lines[2]| == 26;
    assert Responses.Join(lines[1..][1..]) == lines[2];
    assert Responses.Join(lines[1..]) == lines[1] + CRLF + lines[2];
  }

  lemma ChunkedHeaderInspects()
    ensures var header := HeaderOf(CHUNKED_FIELDS);
            && IsHeader(header)
            && InspectFields(header, |header|).HeadInfo? && InspectFields(header, |header|).chunked
  {
    ChunkedFieldsAreTidy();
    ChunkedHeaderIsShort();
    HeaderReads(CHUNKED_FIELDS);
    ChunkedFieldsScan();
    ChunkedIsSaid();
    hide HeaderOf, ScanFor, FieldsOf, SaysChunked, Lower;
  }

  lemma ChunkedFieldsFill()
    ensures var lines := Responses.HeaderLines(CHUNKED_FIELDS);
            && FillHeaders(lines, map[]).Ok? && "host" in FillHeaders(lines, map[]).value
            && CountFor(lines, "transfer-encoding") <= 1 && CountFor(lines, "content-length") <= 1
  {
    ChunkedFieldsAreTidy();
    FieldNames();
    HeaderLineReads(CHUNKED_FIELDS[0]);
    HeaderLineReads(CHUNKED_FIELDS[1]);
    hide NameOf, FieldName, FieldValue, Responses.HeaderLine;
    var lines := Responses.HeaderLines(CHUNKED_FIELDS);
    assert lines == [Responses.HeaderLine(CHUNKED_FIELDS[0]), Responses.HeaderLine(CHUNKED_FIELDS[1])];
    assert lines[1..] == [lines[1]] && lines[1..][1..] == [];
    assert lines[0] != [] && lines[1] != [] by {
      assert ':' in lines[0] && ':' in lines[1];
    }
    var once := map["host" := FieldValue(lines[0])];
    assert FillHeaders(lines, map[]) == FillHeaders(lines[1..], once);
    assert FillHeaders(lines[1..], once) == FillHeaders([], once["transfer-encoding" := FieldValue(lines[1])]);
    assert CountFor(lines[1..], "content-length") == 0 && CountFor(lines[1..], "transfer-encoding") == 1;
  }

  /** A body whose one trailer line has `n` bytes of filling. */
  function Filler(n: nat): Chunked.ChunkedBody {
    Chunked.Last("0", Chunked.Trailer(":" + seq(n, _ => 'x'), Chunked.NoTrailer))
  }

  lemma FillerIsWellFormed(n: nat)
    ensures Chunked.WellFormed(Filler(n)) && |Chunked.Print(Filler(n))| == n + 8 && Chunked.Content(Filler(n)) == []
  {
    var p := Filler(n);
    var line := ":" + seq(n, _ => 'x');
    CleanIsLine(line);
    assert line[0] == ':';
    Chunked.HexLine(0);
    assert Hex(0) == "0";
    hide Chunked.SizeOf, IsLine;
    assert Chunked.WellFormedTrailers(p.trailers);
    assert Chunked.WellFormed(p);
    assert |Chunked.PrintTrailers(Chunked.NoTrailer)| == 2;
    assert |Chunked.PrintTrailers(p.trailers)| == |line| + 4;
    assert |Chunked.Print(p)| == 3 + |line| + 4;
  }

  lemma FillerIsFramed(n: nat)
    ensures |Chunked.Print(Filler(n))| == n + 8
    ensures Chunked.Frame(Chunked.Print(Filler(n))) == Chunked.Complete(n + 8)
  {
    FillerIsWellFormed(n);
    hide Filler, Chunked.Print, Chunked.WellFormed, Chunked.Frame, Chunked.Content;
    var p := Filler(n);
    var b := Chunked.Print(p);
    assert b[..n + 8] == b;
    Chunked.FramerIsTheGrammar(b, n + 8);
    assert Chunked.WellFormed(p) && |Chunked.Content(p)| <= Chunked.MAX_BODY_BYTES && Chunked.Print(p) == b[..n + 8];
  }

  /** There is a request of exactly `size` bytes, for every size from 63 on. */
  lemma MessageOfSize(env: Engine.Env, size: nat) returns (m: Bytes)
    requires size >= 63 && env.urlsplit("/").Some?
    ensures |m| == size && Verdict(m) == Message(size)
    ensures Engine.AnswerTo(env, m, 0).Served?
  {
    var header, body := HeaderOf(CHUNKED_FIELDS), Chunked.Print(Filler(size - 63));
    m := header + SEPARATOR + body;
    ChunkedHeaderIsShort();
    FillerIsFramed(size - 63);
    ChunkedHeaderInspects();
    InspectFieldsBounds(header, |header|);
    HeaderIsFound(header, body);
    hide Filler, Chunked.Print, Chunked.Frame, HeaderOf, IsHeader, HeadOf, Find, InspectFields;
    assert Verdict(m) == Message(size);
    MessageIsServed(env, m, header);
  }

  lemma MessageIsServed(env: Engine.Env, m: Bytes, header: Bytes)
    requires Verdict(m) == Message(|m|) && env.urlsplit("/").Some?
    requires header == HeaderOf(CHUNKED_FIELDS)
    requires Find(m, SEPARATOR, 0) == |header| && m[..|header|] == header
    ensures Engine.AnswerTo(env, m, 0).Served?
  {
    ChunkedFieldsAreTidy();
    HeaderReads(CHUNKED_FIELDS);
    ChunkedFieldsFill();
    RequestLineParses(env.urlsplit);
    hide Verdict, FillHeaders, CountFor, ParseRequestLine, HeaderOf, Find, BodyOf, Request, FieldsOf;
    SingleFieldsNeverConflict(m, env.urlsplit);
    assert ParsePreamble(header, env.urlsplit).Ok?;
  }

  /** Two cuts of one stream into reads the server can make, with different answers. */
  ghost predicate AnsweredDifferently(env: Engine.Env, stream: Bytes, a: seq<Bytes>, b: seq<Bytes>) {
    && Engine.UnsignedStream(env, stream, 0)
    && EngineTheorems.IsCut(a, stream) && EngineTheorems.IsCut(b, stream)
    && Engine.SelectorRun(env, Engine.START, a).answers != Engine.SelectorRun(env, Engine.START, b).answers
  }

  /** The whole-buffer guard makes the answers depend on how the stream is cut: two cuts of one
      stream, into reads the server can make, that are answered differently. */
  lemma AnswersCanDependOnTheCut(env: Engine.Env)
    requires env.urlsplit("/").Some?
    ensures exists stream, a, b :: AnsweredDifferently(env, stream, a, b)
  {
    var m := MessageOfSize(env, MAX_REQUEST_BYTES);
    hide Verdict, Engine.AnswerTo, Engine.Drain, Engine.UnsignedStream;
    EngineTheorems.GuardSeesTheCut(env, m, 'x');
    var a, b :| EngineTheorems.IsCut(a, m + ['x']) && EngineTheorems.IsCut(b, m + ['x'])
                && Engine.AnswerTo(env, m, 0) in Engine.SelectorRun(env, Engine.START, a).answers
                && Engine.SelectorRun(env, Engine.START, b).answers == [Engine.Rejected(413)];
    var stream := m + ['x'];
    assert AnsweredDifferently(env, stream, a, b);
  }

  // ----- two Content-Length fields -----

  const TWO_LENGTHS: Responses.Headers := [("Host", "a"), ("Content-Length", "0"), ("Content-Length", "1")]

  /** The framer believes the first Content-Length and hands the message on; the parser believes
      the last one and finds a conflict. */
  lemma TwoLengthsConflict()
    ensures var m := HeaderOf(TWO_LENGTHS) + SEPARATOR;
            Verdict(m) == Message(|m|) && FramingConflict(HeaderOf(TWO_LENGTHS), 0)
  {
    TwoLengthsScan();
    TwoLengthsLast();
    TwoLengthsHeader();
    var header := HeaderOf(TWO_LENGTHS);
    hide HeaderOf, ScanFor, LastFor, FieldsOf, Find;
    assert ParseInt("0", 10) == Some(0) && ParseInt("1", 10) == Some(1);
    hide ParseInt;
    HeaderIsFound(header, []);
    assert header + SEPARATOR + [] == header + SEPARATOR;
  }

  lemma TwoLengthsAreTidy()
    ensures Tidy(TWO_LENGTHS)
  {
    FieldNames();
    hide NameOf;
    assert TidyField(TWO_LENGTHS[0]) && TidyField(TWO_LENGTHS[1]) && TidyField(TWO_LENGTHS[2]);
  }

  lemma TwoLengthsScan()
    ensures var fields := FieldsOf(HeaderOf(TWO_LENGTHS));
            && ScanFor(fields, "transfer-encoding") == NotFound && ScanFor(fields, "content-length") == Found("0")
            && !ScanFor(fields, "expect").BadLine?
  {
    TwoLengthsAreTidy();
    FieldNames();
    HeaderReads(TWO_LENGTHS);
    hide NameOf, Strip, ScanFor, HeaderOf;
    ScanFinds(TWO_LENGTHS, "transfer-encoding", "Transfer-Encoding");
    ScanFinds(TWO_LENGTHS, "content-length", "Content-Length");
    ScanIsNeverBad(TWO_LENGTHS, "expect");
    assert TWO_LENGTHS[1..][1..][1..] == [];
  }

  lemma TwoLengthsLast()
    ensures var fields := FieldsOf(HeaderOf(TWO_LENGTHS));
            LastFor(fields, "transfer-encoding") == None && LastFor(fields, "content-length") == Some("1")
  {
    TwoLengthsAreTidy();
    FieldNames();
    HeaderReads(TWO_LENGTHS);
    HeaderLineReads(TWO_LENGTHS[0]);
    HeaderLineReads(TWO_LENGTHS[1]);
    HeaderLineReads(TWO_LENGTHS[2]);
    hide NameOf, Strip, HeaderOf, FieldName, FieldValue, Responses.HeaderLine;
    var lines := Responses.HeaderLines(TWO_LENGTHS);
    assert lines[1..][1..][1..] == [];
    assert LastFor(lines[1..][1..], "content-length") == Some("1");
    assert LastFor(lines[1..][1..], "transfer-encoding") == None;
    assert LastFor(lines[1..], "content-length") == Some("1");
    assert LastFor(lines[1..], "transfer-encoding") == None;
  }

  lemma TwoLengthsHeader()
    ensures IsHeader(HeaderOf(TWO_LENGTHS))
  {
    TwoLengthsAreTidy();
    HeaderReads(TWO_LENGTHS);
    var lines := [REQUEST_LINE] + Responses.HeaderLines(TWO_LENGTHS);
    assert lines[1..] == Responses.HeaderLines(TWO_LENGTHS) && |lines[1]| == 7 && |lines[2]| == |lines[3]| == 17;
    assert Responses.Join(lines[1..][1..][1..]) == lines[3];
    assert Responses.Join(lines[1..][1..]) == lines[2] + CRLF + lines[3];
    assert Responses.Join(lines[1..]) == lines[1] + CRLF + Responses.Join(lines[1..][1..]);
  }
}

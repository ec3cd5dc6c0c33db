/** `request.py`: the second reading of a framed message, as a structured request. */
module RequestParser {
  import opened Wrappers
  import opened ByteStrings
  import opened Framer
  import Chunked
  import ChunkLoops

  const MAX_TARGET_LENGTH := 2048
  const KNOWN_METHODS: set<Bytes> :=
    {"GET", "HEAD", "POST", "PUT", "DELETE", "OPTIONS", "PATCH", "TRACE", "CONNECT"}

  datatype ParseError =
    | MissingSeparator | MissingRequestLine | InvalidRequestLine | EmptyToken | UnknownMethod
    | UnknownVersion | TargetTooLong | BadTarget | MalformedHeader | EmptyHeaderName | HostRequired
    | CombinedFraming | BadChunkedBody(reason: Chunked.DecodeError) | BadContentLength
    | NegativeContentLength | LengthMismatch | BodyTooLarge

  function StatusOf(e: ParseError): nat {
    match e
    case UnknownMethod => 501
    case UnknownVersion => 505
    case TargetTooLong => 414
    case BodyTooLarge => 413
    case BadChunkedBody(DecodedTooLarge) => 413
    case _ => 400
  }

  /** What `urlsplit` and `parse_qs` make of a target; `None` when they raise. */
  datatype Url = Url(path: Bytes, query: Bytes)
  type UrlSplit = Bytes -> Option<Url>

  datatype HTTPRequest = HTTPRequest(
    verb: Bytes, target: Bytes, path: Bytes, query: Bytes, version: Bytes,
    headers: map<Bytes, Bytes>, body: Bytes, keepAlive: bool)

  datatype Result<+T> = Ok(value: T) | Err(error: ParseError)

  // ----- request line and header dictionary -----

  function UpperChar(c: char): char { if 'a' <= c <= 'z' then (c as int - 32) as char else c }

  function Upper(s: Bytes): Bytes { seq(|s|, i requires 0 <= i < |s| => UpperChar(s[i])) }

  datatype RequestLine = RequestLine(verb: Bytes, target: Bytes, version: Bytes, url: Url)

  function ParseRequestLine(line: Bytes, urlsplit: UrlSplit): Result<RequestLine> {
    var parts := SplitOn(line, ' ');
    if line == [] then Err(MissingRequestLine)
    else if |parts| != 3 then Err(InvalidRequestLine)
    else if parts[0] == [] || parts[1] == [] || parts[2] == [] then Err(EmptyToken)
    else if Upper(parts[0]) !in KNOWN_METHODS then Err(UnknownMethod)
    else if parts[2] != "HTTP/1.1" && parts[2] != "HTTP/1.0" then Err(UnknownVersion)
    else if |parts[1]| > MAX_TARGET_LENGTH then Err(TargetTooLong)
    else
      match urlsplit(parts[1])
      case None => Err(BadTarget)
      case Some(url) => Ok(RequestLine(Upper(parts[0]), parts[1], parts[2], url))
  }

  function FillHeaders(fields: seq<Bytes>, headers: map<Bytes, Bytes>): Result<map<Bytes, Bytes>> {
    if fields == [] then Ok(headers)
    else if fields[0] == [] then FillHeaders(fields[1..], headers)
    else if ':' !in fields[0] then Err(MalformedHeader)
    else if FieldName(fields[0]) == [] then Err(EmptyHeaderName)
    else FillHeaders(fields[1..], headers[FieldName(fields[0]) := FieldValue(fields[0])])
  }

  method ParseHeaders(fields: seq<Bytes>) returns (r: Result<map<Bytes, Bytes>>)
    ensures r == FillHeaders(fields, map[])
  {
    var headers: map<Bytes, Bytes> := map[];
    for i := 0 to |fields|
      invariant FillHeaders(fields, map[]) == FillHeaders(fields[i..], headers)
    {
      var line := fields[i];
      assert fields[i..][1..] == fields[i + 1..];
      if line != [] {
        if ':' !in line { return Err(MalformedHeader); }
        var name := FieldName(line);
        if name == [] { return Err(EmptyHeaderName); }
        headers := headers[name := FieldValue(line)];
      }
    }
    return Ok(headers);
  }

  // ----- everything before the body is looked at -----

  datatype Preamble = Preamble(line: RequestLine, headers: map<Bytes, Bytes>)

  function ParsePreamble(header: Bytes, urlsplit: UrlSplit): Result<Preamble> {
    match ParseRequestLine(Lines(header)[0], urlsplit)
    case Err(e) => Err(e)
    case Ok(line) =>
      match FillHeaders(FieldsOf(header), map[])
      case Err(e) => Err(e)
      case Ok(headers) =>
        if line.version == "HTTP/1.1" && "host" !in headers then Err(HostRequired)
        else Ok(Preamble(line, headers))
  }

  // ----- the body -----

  predicate DictSaysChunked(headers: map<Bytes, Bytes>) {
    "transfer-encoding" in headers && Contains(Lower(headers["transfer-encoding"]), "chunked")
  }

  function DecodedBody(d: Chunked.Decoded): Result<Bytes> {
    match d
    case Undecodable(reason) => Err(BadChunkedBody(reason))
    case Data(decoded) => if |decoded| > Chunked.MAX_BODY_BYTES then Err(BodyTooLarge) else Ok(decoded)
  }

  /** The body a header dictionary gives to the bytes after the separator. */
  function BodyOf(headers: map<Bytes, Bytes>, body: Bytes): Result<Bytes> {
    var chunked := DictSaysChunked(headers);
    if chunked && "content-length" in headers then Err(CombinedFraming)
    else if chunked then DecodedBody(Chunked.Decode(body))
    else
      var declared := if "content-length" in headers then ParseInt(headers["content-length"], 10) else Some(|body|);
      if declared.None? then Err(BadContentLength)
      else if declared.value < 0 then Err(NegativeContentLength)
      else if declared.value != |body| then Err(LengthMismatch)
      else if |body| > Chunked.MAX_BODY_BYTES then Err(BodyTooLarge)
      else Ok(body)
  }

  function KeepAlive(version: Bytes, headers: map<Bytes, Bytes>): bool {
    var token := Lower(if "connection" in headers then headers["connection"] else "");
    if version == "HTTP/1.1" then !Contains(token, "close")
    else version == "HTTP/1.0" && Contains(token, "keep-alive")
  }

  function Request(p: Preamble, body: Bytes): HTTPRequest {
    HTTPRequest(p.line.verb, p.line.target, if p.line.url.path == [] then "/" else p.line.url.path,
                p.line.url.query, p.line.version, p.headers, body, KeepAlive(p.line.version, p.headers))
  }

  /** `HTTPRequest.from_bytes` */
  function Parse(raw: Bytes, urlsplit: UrlSplit): Result<HTTPRequest> {
    var end := Find(raw, SEPARATOR, 0);
    if end < 0 then Err(MissingSeparator)
    else
      match ParsePreamble(raw[..end], urlsplit)
      case Err(e) => Err(e)
      case Ok(preamble) =>
        Completed(preamble, BodyOf(preamble.headers, raw[end + 4..]))
  }

  function Completed(p: Preamble, body: Result<Bytes>): Result<HTTPRequest> {
    match body
    case Err(e) => Err(e)
    case Ok(data) => Ok(Request(p, data))
  }

  // ----- the answers of the source, minus signs included -----

  /** The parser takes the body for chunked and comes to decode it. */
  predicate Decoding(headers: map<Bytes, Bytes>) { DictSaysChunked(headers) && "content-length" !in headers }

  /** The body of the source: for a chunked one, what the decoding loop ends with. */
  ghost predicate GivesBody(headers: map<Bytes, Bytes>, body: Bytes, r: Result<Bytes>) {
    if Decoding(headers) then exists d :: ChunkLoops.Decodes(body, d) && r == DecodedBody(d)
    else r == BodyOf(headers, body)
  }

  /** The source ends with answer `r`. */
  ghost predicate Parses(raw: Bytes, urlsplit: UrlSplit, r: Result<HTTPRequest>) {
    var end := Find(raw, SEPARATOR, 0);
    if end < 0 then r == Err(MissingSeparator)
    else
      match ParsePreamble(raw[..end], urlsplit)
      case Err(e) => r == Err(e)
      case Ok(preamble) =>
        exists body :: GivesBody(preamble.headers, raw[end + 4..], body) && r == Completed(preamble, body)
  }

  /** The source ends. */
  ghost predicate Halts(raw: Bytes, urlsplit: UrlSplit) {
    var end := Find(raw, SEPARATOR, 0);
    end >= 0 ==>
      match ParsePreamble(raw[..end], urlsplit)
      case Err(_) => true
      case Ok(preamble) => Decoding(preamble.headers) ==> ChunkLoops.DecoderHalts(raw[end + 4..])
  }

  /** Where no chunk size has a minus sign, the answer is that of the function. */
  lemma BodyGiven(headers: map<Bytes, Bytes>, body: Bytes, r: Result<Bytes>)
    requires BodyOf(headers, body) != Err(BadChunkedBody(Chunked.MinusSize))
    ensures GivesBody(headers, body, r) <==> r == BodyOf(headers, body)
    ensures Decoding(headers) ==> ChunkLoops.DecoderHalts(body)
  {
    hide Chunked.Decode, ChunkLoops.Decodes, DictSaysChunked;
    if Decoding(headers) {
      ChunkLoops.DecoderEnds(body, Chunked.Decode(body));
      forall d ensures ChunkLoops.Decodes(body, d) <==> d == Chunked.Decode(body) { ChunkLoops.DecoderEnds(body, d); }
    }
  }

  lemma UnsignedHalts(raw: Bytes, urlsplit: UrlSplit)
    requires Parse(raw, urlsplit) != Err(BadChunkedBody(Chunked.MinusSize))
    ensures Halts(raw, urlsplit)
    ensures forall r :: Parses(raw, urlsplit, r) <==> r == Parse(raw, urlsplit)
  {
    hide GivesBody, BodyOf, Request, ParsePreamble, Find, Decoding;
    var end := Find(raw, SEPARATOR, 0);
    if end >= 0 && ParsePreamble(raw[..end], urlsplit).Ok? {
      var headers, rest := ParsePreamble(raw[..end], urlsplit).value.headers, raw[end + 4..];
      BodyGiven(headers, rest, BodyOf(headers, rest));
      forall body ensures GivesBody(headers, rest, body) <==> body == BodyOf(headers, rest) {
        BodyGiven(headers, rest, body);
      }
    }
  }

  /** `from_bytes`, wherever it ends. */
  method FromBytes(raw: Bytes, urlsplit: UrlSplit) returns (r: Result<HTTPRequest>)
    requires Halts(raw, urlsplit)
    ensures Parses(raw, urlsplit, r)
    ensures Parse(raw, urlsplit) != Err(BadChunkedBody(Chunked.MinusSize)) ==> r == Parse(raw, urlsplit)
  {
    hide ParseRequestLine, FillHeaders, ChunkLoops.Decodes, Chunked.Decode, Find;
    if Parse(raw, urlsplit) != Err(BadChunkedBody(Chunked.MinusSize)) { UnsignedHalts(raw, urlsplit); }
    var end := Find(raw, SEPARATOR, 0);
    if end < 0 { return Err(MissingSeparator); }
    var lines, body := Lines(raw[..end]), raw[end + 4..];
    var line := ParseRequestLine(lines[0], urlsplit);
    if line.Err? { return Err(line.error); }
    var headers := ParseHeaders(lines[1..]);
    if headers.Err? { return Err(headers.error); }
    if line.value.version == "HTTP/1.1" && "host" !in headers.value { return Err(HostRequired); }
    ghost var preamble := Preamble(line.value, headers.value);
    assert ParsePreamble(raw[..end], urlsplit) == Ok(preamble);
    var given := TakeBody(headers.value, body);
    assert GivesBody(preamble.headers, raw[end + 4..], given);
    r := if given.Err? then Err(given.error) else Ok(Request(Preamble(line.value, headers.value), given.value));
    assert r == Completed(preamble, given);
  }

  /** The framing part of `from_bytes`. */
  method TakeBody(headers: map<Bytes, Bytes>, raw: Bytes) returns (r: Result<Bytes>)
    requires Decoding(headers) ==> ChunkLoops.DecoderHalts(raw)
    ensures GivesBody(headers, raw, r)
  {
    hide ChunkLoops.Decodes, Chunked.Decode, DictSaysChunked;
    var body := raw;
    if DictSaysChunked(headers) && "content-length" in headers { return Err(CombinedFraming); }
    if DictSaysChunked(headers) {
      var decoded := ChunkLoops.DecodeChunkedBody(body);
      if decoded.Undecodable? { return Err(BadChunkedBody(decoded.error)); }
      body := decoded.body;
    } else if "content-length" in headers {
      var declared := ParseInt(headers["content-length"], 10);
      if declared.None? { return Err(BadContentLength); }
      if declared.value < 0 { return Err(NegativeContentLength); }
      if |body| != declared.value { return Err(LengthMismatch); }
    }
    if |body| > Chunked.MAX_BODY_BYTES { return Err(BodyTooLarge); }
    return Ok(body);
  }

  // ----- first field against last field -----

  /** The framer reads the first field of a name, the dictionary keeps the last. */
  function LastFor(fields: seq<Bytes>, name: Bytes): Option<Bytes> {
    if fields == [] then None
    else if LastFor(fields[1..], name).Some? then LastFor(fields[1..], name)
    else if ':' in fields[0] && FieldName(fields[0]) == name then Some(FieldValue(fields[0]))
    else None
  }

  function CountFor(fields: seq<Bytes>, name: Bytes): nat {
    if fields == [] then 0
    else (if ':' in fields[0] && FieldName(fields[0]) == name then 1 else 0) + CountFor(fields[1..], name)
  }

  lemma {:induction false} DictionaryKeepsTheLast(fields: seq<Bytes>, headers: map<Bytes, Bytes>, name: Bytes)
    requires FillHeaders(fields, headers).Ok?
    ensures var h := FillHeaders(fields, headers).value;
            var last := LastFor(fields, name);
            if last.Some? then name in h && h[name] == last.value
            else (name in h <==> name in headers) && (name in h ==> h[name] == headers[name])
    decreases |fields|
  {
    hide FieldName, FieldValue;
    if fields != [] {
      if fields[0] == [] {
        DictionaryKeepsTheLast(fields[1..], headers, name);
      } else {
        DictionaryKeepsTheLast(fields[1..], headers[FieldName(fields[0]) := FieldValue(fields[0])], name);
      }
    }
  }

  lemma {:induction false} FirstAgainstLast(fields: seq<Bytes>, headers: map<Bytes, Bytes>, name: Bytes)
    requires FillHeaders(fields, headers).Ok?
    ensures !ScanFor(fields, name).BadLine?
    ensures ScanFor(fields, name).NotFound? <==> LastFor(fields, name).None?
    ensures ScanFor(fields, name).NotFound? <==> CountFor(fields, name) == 0
    ensures CountFor(fields, name) == 1 ==> ScanFor(fields, name) == Found(LastFor(fields, name).value)
    decreases |fields|
  {
    hide FieldName, FieldValue;
    if fields != [] {
      if fields[0] == [] {
        FirstAgainstLast(fields[1..], headers, name);
      } else {
        FirstAgainstLast(fields[1..], headers[FieldName(fields[0]) := FieldValue(fields[0])], name);
      }
    }
  }

  // ----- whatever the framer hands on, the parser can frame -----

  /** The exact condition under which the parser refuses the body of a message the framer
      accepted: the two readings of repeated fields differ in a way that matters. */
  predicate FramingConflict(header: Bytes, bodyLength: nat) {
    var fields := FieldsOf(header);
    var first := SaysChunked(ScanFor(fields, "transfer-encoding"));
    var transferEncoding, contentLength := LastFor(fields, "transfer-encoding"), LastFor(fields, "content-length");
    var last := transferEncoding.Some? && Contains(Lower(transferEncoding.value), "chunked");
    if first then !last && bodyLength > Chunked.MAX_BODY_BYTES
    else last || (contentLength.Some? && ParseInt(contentLength.value, 10) != Some(bodyLength))
  }

  /** The body a framed message brings along is refused exactly on a conflict. */
  lemma BodyConflict(header: Bytes, body: Bytes)
    requires InspectFields(header, |header|).HeadInfo? && FillHeaders(FieldsOf(header), map[]).Ok?
    requires if InspectFields(header, |header|).chunked then Chunked.Frame(body) == Chunked.Complete(|body|)
             else InspectFields(header, |header|).expectedLength == |body|
    ensures BodyOf(FillHeaders(FieldsOf(header), map[]).value, body).Err? <==> FramingConflict(header, |body|)
  {
    hide ScanFor, LastFor, CountFor, FillHeaders, FieldsOf, ParseInt, Contains, Lower, Chunked.Frame, Chunked.Decode;
    var fields := FieldsOf(header);
    DictionaryKeepsTheLast(fields, map[], "transfer-encoding");
    DictionaryKeepsTheLast(fields, map[], "content-length");
    FirstAgainstLast(fields, map[], "transfer-encoding");
    FirstAgainstLast(fields, map[], "content-length");
    if InspectFields(header, |header|).chunked {
      Chunked.FramerAndDecoderAgree(body, |body|);
      assert body[..|body|] == body;
    } else if body == [] {
      EmptyBodyIsNoChunkedBody();
    }
  }

  /** A framed message always has its separator, and once its request line and header lines
      parse, its body is refused exactly when the repeated fields conflict. */
  lemma FramedMessagesParse(raw: Bytes, urlsplit: UrlSplit)
    requires Verdict(raw) == Message(|raw|)
    ensures Find(raw, SEPARATOR, 0) >= 0
    ensures var header := raw[..Find(raw, SEPARATOR, 0)];
            ParsePreamble(header, urlsplit).Ok? ==>
              (Parse(raw, urlsplit).Err? <==> FramingConflict(header, |raw| - |header| - 4))
  {
    hide FramingConflict, InspectFields, FieldsOf, FillHeaders, ParseRequestLine, Verdict, BodyOf, Request, Find,
         Chunked.Frame;
    MessageShape(raw);
    var header := raw[..Find(raw, SEPARATOR, 0)];
    if ParsePreamble(header, urlsplit).Ok? { BodyConflict(header, raw[|header| + 4..]); }
  }

  /** The parser never reaches a minus sign in a message the framer has handed on. */
  lemma FramedMessagesAreUnsigned(raw: Bytes, urlsplit: UrlSplit)
    requires Verdict(raw) == Message(|raw|)
    ensures Parse(raw, urlsplit) != Err(BadChunkedBody(Chunked.MinusSize))
  {
    hide FieldsOf, FillHeaders, ParseRequestLine, ParseInt, Request, Find, InspectFields, Verdict, DictSaysChunked;
    hide Chunked.Decode, Chunked.Frame;
    MessageShape(raw);
    var header := raw[..Find(raw, SEPARATOR, 0)];
    if ParsePreamble(header, urlsplit).Ok? {
      BodyIsUnsigned(header, raw[|header| + 4..]);
    } else {
      PreambleErrors(header, urlsplit);
    }
  }

  lemma {:induction false} HeaderErrors(fields: seq<Bytes>, headers: map<Bytes, Bytes>)
    ensures FillHeaders(fields, headers).Err? ==> !FillHeaders(fields, headers).error.BadChunkedBody?
    decreases |fields|
  {
    hide FieldName, FieldValue;
    if fields != [] {
      HeaderErrors(fields[1..], headers);
      if ':' in fields[0] { HeaderErrors(fields[1..], headers[FieldName(fields[0]) := FieldValue(fields[0])]); }
    }
  }

  lemma PreambleErrors(header: Bytes, urlsplit: UrlSplit)
    ensures ParsePreamble(header, urlsplit).Err? ==> !ParsePreamble(header, urlsplit).error.BadChunkedBody?
  {
    hide FillHeaders, Upper, SplitOn, FieldsOf;
    HeaderErrors(FieldsOf(header), map[]);
  }

  lemma BodyIsUnsigned(header: Bytes, body: Bytes)
    requires InspectFields(header, |header|).HeadInfo? && FillHeaders(FieldsOf(header), map[]).Ok?
    requires if InspectFields(header, |header|).chunked then Chunked.Frame(body) == Chunked.Complete(|body|)
             else InspectFields(header, |header|).expectedLength == |body|
    ensures BodyOf(FillHeaders(FieldsOf(header), map[]).value, body) != Err(BadChunkedBody(Chunked.MinusSize))
  {
    hide ScanFor, LastFor, CountFor, FillHeaders, FieldsOf, ParseInt, Contains, Lower, Chunked.Frame, Chunked.Decode;
    var fields := FieldsOf(header);
    DictionaryKeepsTheLast(fields, map[], "content-length");
    FirstAgainstLast(fields, map[], "content-length");
    if InspectFields(header, |header|).chunked {
      Chunked.FramerAndDecoderAgree(body, |body|);
      assert body[..|body|] == body;
    } else if body == [] {
      EmptyBodyIsNoChunkedBody();
    }
  }

  lemma EmptyBodyIsNoChunkedBody()
    ensures Chunked.Decode([]) == Chunked.Undecodable(Chunked.IncompleteSizeLine)
  {}

  lemma SingleFieldsAgree(header: Bytes, bodyLength: nat)
    requires InspectFields(header, |header|).HeadInfo? && FillHeaders(FieldsOf(header), map[]).Ok?
    requires InspectFields(header, |header|).chunked || InspectFields(header, |header|).expectedLength == bodyLength
    requires CountFor(FieldsOf(header), "transfer-encoding") <= 1 && CountFor(FieldsOf(header), "content-length") <= 1
    ensures !FramingConflict(header, bodyLength)
  {
    hide ScanFor, LastFor, CountFor, FillHeaders, FieldsOf, ParseInt, Contains, Lower;
    FirstAgainstLast(FieldsOf(header), map[], "transfer-encoding");
    FirstAgainstLast(FieldsOf(header), map[], "content-length");
  }

  /** With at most one Content-Length and one Transfer-Encoding field there is no conflict: a
      framed message is refused for its request line or a header line, never for its framing. */
  lemma SingleFieldsNeverConflict(raw: Bytes, urlsplit: UrlSplit)
    requires Verdict(raw) == Message(|raw|)
    requires var fields := FieldsOf(raw[..Find(raw, SEPARATOR, 0)]);
             CountFor(fields, "transfer-encoding") <= 1 && CountFor(fields, "content-length") <= 1
    ensures Parse(raw, urlsplit).Err? ==>
              ParsePreamble(raw[..Find(raw, SEPARATOR, 0)], urlsplit) == Err(Parse(raw, urlsplit).error)
  {
    hide FramingConflict, InspectFields, FieldsOf, FillHeaders, CountFor, ParseRequestLine, Verdict, BodyOf, Request,
         Find;
    FramedMessagesParse(raw, urlsplit);
    MessageShape(raw);
    var header := raw[..Find(raw, SEPARATOR, 0)];
    if ParsePreamble(header, urlsplit).Ok? { SingleFieldsAgree(header, |raw| - |header| - 4); }
  }

  // ----- a printed request is framed and parsed back -----

  /** `header` can stand before the separator: the first separator after its start is its own. */
  predicate IsHeader(header: Bytes) {
    |header| + 4 <= MAX_HEADER_BYTES && Find(header + SEPARATOR, SEPARATOR, 0) == |header|
  }

  lemma HeaderIsFound(header: Bytes, body: Bytes)
    requires IsHeader(header)
    ensures var m := header + SEPARATOR + body;
            Find(m, SEPARATOR, 0) == |header| && m[..|header|] == header && m[|header| + 4..] == body
            && HeadOf(m) == InspectFields(header, |header|)
  {
    hide InspectFields;
    FindExtends(header + SEPARATOR, header + SEPARATOR + body, SEPARATOR, 0);
  }

  /** What the framer read in single fields, the dictionary says too. */
  lemma DictionaryAgrees(header: Bytes)
    requires InspectFields(header, |header|).HeadInfo? && FillHeaders(FieldsOf(header), map[]).Ok?
    requires CountFor(FieldsOf(header), "transfer-encoding") <= 1 && CountFor(FieldsOf(header), "content-length") <= 1
    ensures var head, headers := InspectFields(header, |header|), FillHeaders(FieldsOf(header), map[]).value;
            && head.chunked == DictSaysChunked(headers)
            && (head.chunked ==> "content-length" !in headers)
            && (!head.chunked && "content-length" in headers ==>
                  ParseInt(headers["content-length"], 10) == Some(head.expectedLength))
            && (!head.chunked ==> "content-length" !in headers ==> head.expectedLength == 0)
  {
    hide ScanFor, LastFor, CountFor, FillHeaders, FieldsOf, ParseInt, Contains, Lower;
    var fields := FieldsOf(header);
    FirstAgainstLast(fields, map[], "transfer-encoding");
    FirstAgainstLast(fields, map[], "content-length");
    DictionaryKeepsTheLast(fields, map[], "transfer-encoding");
    DictionaryKeepsTheLast(fields, map[], "content-length");
  }

  /** Whole-request round trip, chunked: whatever the chunks hold and whatever is pipelined
      behind them, the framer cuts the request off exactly and the parser recovers the body. */
  lemma ChunkedRequestRoundTrip(header: Bytes, chunks: seq<Bytes>, pipelined: Bytes, urlsplit: UrlSplit)
    requires IsHeader(header) && ParsePreamble(header, urlsplit).Ok?
    requires InspectFields(header, |header|).HeadInfo? && InspectFields(header, |header|).chunked
    requires CountFor(FieldsOf(header), "transfer-encoding") <= 1 && CountFor(FieldsOf(header), "content-length") <= 1
    requires Chunked.AllFilled(chunks) && |Flatten(chunks)| <= Chunked.MAX_BODY_BYTES
    ensures var m := header + SEPARATOR + Chunked.Encode(chunks);
            && Verdict(m + pipelined) == Message(|m|)
            && Parse(m, urlsplit) == Ok(Request(ParsePreamble(header, urlsplit).value, Flatten(chunks)))
  {
    hide Chunked.Encode, Chunked.Frame, Chunked.Decode, FieldsOf, FillHeaders, CountFor, ParseRequestLine, ParseInt,
         InspectFields, DictSaysChunked, IsHeader, Find, HeadOf;
    var body := Chunked.Encode(chunks);
    var m := header + SEPARATOR + body;
    Chunked.FilledPrint(chunks, pipelined);
    Chunked.FilledPrint(chunks, []);
    assert body + [] == body;
    DictionaryAgrees(header);
    InspectFieldsBounds(header, |header|);
    HeaderIsFound(header, body);
    HeaderIsFound(header, body + pipelined);
    assert m + pipelined == header + SEPARATOR + (body + pipelined);
  }

  /** Whole-request round trip, Content-Length: the body is the declared number of bytes. */
  lemma SizedRequestRoundTrip(header: Bytes, body: Bytes, pipelined: Bytes, urlsplit: UrlSplit)
    requires IsHeader(header) && ParsePreamble(header, urlsplit).Ok?
    requires InspectFields(header, |header|).HeadInfo? && !InspectFields(header, |header|).chunked
    requires InspectFields(header, |header|).expectedLength == |body|
    requires CountFor(FieldsOf(header), "transfer-encoding") <= 1 && CountFor(FieldsOf(header), "content-length") <= 1
    ensures var m := header + SEPARATOR + body;
            && Verdict(m + pipelined) == Message(|m|)
            && Parse(m, urlsplit) == Ok(Request(ParsePreamble(header, urlsplit).value, body))
  {
    hide FieldsOf, FillHeaders, CountFor, ParseRequestLine, ParseInt, InspectFields, DictSaysChunked, IsHeader, Find,
         HeadOf;
    var m := header + SEPARATOR + body;
    DictionaryAgrees(header);
    InspectFieldsBounds(header, |header|);
    HeaderIsFound(header, body);
    HeaderIsFound(header, body + pipelined);
    assert m + pipelined == header + SEPARATOR + (body + pipelined);
  }
}

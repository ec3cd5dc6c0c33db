/** What the parser makes of a printed request: the words of the request line, every field by its last
    occurrence, and the body. */
module RequestReading {
  import opened Wrappers
  import opened ByteStrings
  import opened TextReading
  import opened Framer
  import opened RequestParser
  import opened ResponseFraming
  import opened AnswerTheorems
  import opened Responses
  import Chunked

  /** Fields a client can print: no line breaks, and a name without a colon that is not blank. */
  predicate Printable(h: Headers) {
    forall i :: 0 <= i < |h| ==> Clean(h[i].0) && Clean(h[i].1) && ':' !in h[i].0 && NameOf(h[i].0) != []
  }

  /** The stripped value of the last field of a name, in any case. */
  function LastNamed(h: Headers, name: Bytes): Option<Bytes> {
    if h == [] then None
    else if LastNamed(h[1..], name).Some? then LastNamed(h[1..], name)
    else if NameOf(h[0].0) == name then Some(Strip(h[0].1, TextSpace))
    else None
  }

  /** How many fields have a name. */
  function TimesNamed(h: Headers, name: Bytes): nat {
    if h == [] then 0 else (if NameOf(h[0].0) == name then 1 else 0) + TimesNamed(h[1..], name)
  }

  lemma {:induction false} FieldsAreRead(h: Headers, headers: map<Bytes, Bytes>, name: Bytes)
    requires Printable(h)
    ensures FillHeaders(HeaderLines(h), headers).Ok?
    ensures LastFor(HeaderLines(h), name) == LastNamed(h, name)
    ensures CountFor(HeaderLines(h), name) == TimesNamed(h, name)
    decreases |h|
  {
    hide NameOf, FieldName, FieldValue, HeaderLine, Strip;
    if h != [] {
      HeaderLineReads(h[0]);
      assert HeaderLines(h)[0] == HeaderLine(h[0]) && HeaderLines(h)[1..] == HeaderLines(h[1..]);
      assert Printable(h[1..]) && forall i :: 0 <= i < |h[1..]| ==> h[1..][i] == h[i + 1];
      var f := HeaderLine(h[0]);
      FieldsAreRead(h[1..], headers[FieldName(f) := FieldValue(f)], name);
    }
  }

  // ----- the head -----

  /** A request line the server takes. */
  predicate Acceptable(verb: Bytes, target: Bytes, version: Bytes, urlsplit: UrlSplit) {
    && IsWord(verb) && IsWord(target) && Clean(verb) && Clean(target)
    && IsStandard(Upper(verb)) && (version == "HTTP/1.1" || version == "HTTP/1.0")
    && |target| <= 2048 && urlsplit(target).Some?
  }

  function Head(verb: Bytes, target: Bytes, version: Bytes, h: Headers): Bytes {
    Join([verb + " " + target + " " + version] + HeaderLines(h))
  }

  lemma VersionIsPlain(version: Bytes)
    requires version == "HTTP/1.1" || version == "HTTP/1.0"
    ensures IsWord(version) && Clean(version) && Clean(" ")
  {}

  lemma HeaderLinesAreClean(h: Headers)
    requires Printable(h)
    ensures forall i :: 0 <= i < |h| ==> HeaderLines(h)[i] != [] && Clean(HeaderLines(h)[i])
  {
    forall i | 0 <= i < |h| ensures HeaderLines(h)[i] != [] && Clean(HeaderLines(h)[i]) {
      assert HeaderLines(h)[i] == h[i].0 + ": " + h[i].1;
    }
  }

  /** The head ends at its separator and splits into the lines it was printed from. */
  lemma HeadIsSplit(verb: Bytes, target: Bytes, version: Bytes, h: Headers, urlsplit: UrlSplit)
    requires Acceptable(verb, target, version, urlsplit) && Printable(h)
    ensures var header := Head(verb, target, version, h);
            && Find(header + SEPARATOR, SEPARATOR, 0) == |header|
            && Lines(header)[0] == verb + " " + target + " " + version && FieldsOf(header) == HeaderLines(h)
  {
    hide IsStandard, Find, Join, Lines, HeaderLines, Printable;
    var line := verb + " " + target + " " + version;
    var lines := [line] + HeaderLines(h);
    VersionIsPlain(version);
    HeaderLinesAreClean(h);
    assert Clean(line) && line != [];
    assert forall i :: 0 < i < |lines| ==> lines[i] == HeaderLines(h)[i - 1];
    assert |HeaderLines(h)| == |h| by { HeaderLinesLength(h); }
    LinesOfJoin(lines);
    JoinedIsHeader(lines);
    assert lines[1..] == HeaderLines(h);
  }

  lemma HeaderLinesLength(h: Headers)
    ensures |HeaderLines(h)| == |h|
  {}

  /** Main result on requests: the parser reads what the client printed. The method comes out in upper
      case, the path is `/` where the target has none, and the dictionary has for every name the last
      value printed, and no other names. */
  lemma RequestIsReadBack(verb: Bytes, target: Bytes, version: Bytes, h: Headers, body: Bytes, urlsplit: UrlSplit,
                          name: Bytes)
    requires Acceptable(verb, target, version, urlsplit) && Printable(h)
    requires version == "HTTP/1.1" ==> LastNamed(h, "host").Some?
    ensures var header := Head(verb, target, version, h);
            && Find(header + SEPARATOR, SEPARATOR, 0) == |header| && FieldsOf(header) == HeaderLines(h)
            && ParsePreamble(header, urlsplit).Ok?
            && var r, url := Request(ParsePreamble(header, urlsplit).value, body), urlsplit(target).value;
               && r.verb == Upper(verb) && r.target == target && r.version == version && r.body == body
               && r.query == url.query && (url.path != [] ==> r.path == url.path) && (url.path == [] ==> r.path == "/")
               && (name in r.headers <==> LastNamed(h, name).Some?)
               && (name in r.headers ==> r.headers[name] == LastNamed(h, name).value)
  {
    hide Find, Lines, FieldsOf, FillHeaders, HeaderLines, ParseRequestLine, KeepAlive, IsStandard, Head, Upper,
         LastNamed, LastFor, CountFor, TimesNamed, Printable;
    HeadIsSplit(verb, target, version, h, urlsplit);
    VersionIsPlain(version);
    RequestLineIsRead(verb, target, version, urlsplit);
    FieldsAreRead(h, map[], name);
    FieldsAreRead(h, map[], "host");
    DictionaryKeepsTheLast(HeaderLines(h), map[], name);
    DictionaryKeepsTheLast(HeaderLines(h), map[], "host");
  }

  // ----- the whole request -----

  /** What the framer sees in a printed head whose framing names occur once at most. */
  lemma PrintedFraming(fields: seq<Bytes>, header: Bytes)
    requires FieldsOf(header) == fields && FillHeaders(fields, map[]).Ok?
    requires CountFor(fields, "transfer-encoding") <= 1 && CountFor(fields, "content-length") <= 1
    ensures var length, coding := LastFor(fields, "content-length"), LastFor(fields, "transfer-encoding");
            var head := InspectFields(header, |header|);
            && (length.Some? && coding.None? && ParseInt(length.value, 10).Some?
                && 0 <= ParseInt(length.value, 10).value <= Chunked.MAX_BODY_BYTES ==>
                  head.HeadInfo? && !head.chunked && head.expectedLength == ParseInt(length.value, 10).value)
            && (length.None? && coding.Some? && Occurs(Lower(coding.value), "chunked") ==>
                  head.HeadInfo? && head.chunked)
  {
    FirstAgainstLast(fields, map[], "content-length");
    FirstAgainstLast(fields, map[], "transfer-encoding");
    FirstAgainstLast(fields, map[], "expect");
    var coding := LastFor(fields, "transfer-encoding");
    if coding.Some? { ContainsIsOccurrence(Lower(coding.value), "chunked"); }
    hide ScanFor, LastFor, CountFor, FillHeaders, FieldsOf, ParseInt, Contains, Lower, Occurs;
  }

  /** A request printed with its length, whatever is pipelined behind it, is cut off exactly and
      parsed to what was printed. */
  lemma SizedRequestIsReadBack(verb: Bytes, target: Bytes, version: Bytes, h: Headers, body: Bytes, pipelined: Bytes,
                               urlsplit: UrlSplit, name: Bytes)
    requires Acceptable(verb, target, version, urlsplit) && Printable(h)
    requires version == "HTTP/1.1" ==> LastNamed(h, "host").Some?
    requires |Head(verb, target, version, h)| + 4 <= MAX_HEADER_BYTES && |body| <= Chunked.MAX_BODY_BYTES
    requires TimesNamed(h, "content-length") == 1 && TimesNamed(h, "transfer-encoding") == 0
    requires LastNamed(h, "content-length") == Some(Decimal(|body|))
    ensures var m := Head(verb, target, version, h) + SEPARATOR + body;
            && Verdict(m + pipelined) == Message(|m|) && Parse(m, urlsplit).Ok?
            && var r := Parse(m, urlsplit).value;
               && r.verb == Upper(verb) && r.target == target && r.version == version && r.body == body
               && (if name in r.headers then LastNamed(h, name) == Some(r.headers[name])
                   else LastNamed(h, name) == None)
  {
    hide Verdict, Parse, Find, Head, FieldsOf, FillHeaders, HeaderLines, ParsePreamble, InspectFields, KeepAlive,
         Acceptable, Numeral, LastNamed, LastFor, CountFor, TimesNamed, Printable, ParseInt, ScanFor, Upper;
    var header := Head(verb, target, version, h);
    RequestIsReadBack(verb, target, version, h, body, urlsplit, name);
    FieldsAreRead(h, map[], "content-length");
    FieldsAreRead(h, map[], "transfer-encoding");
    FirstAgainstLast(HeaderLines(h), map[], "transfer-encoding");
    LengthIsRead(body);
    PrintedFraming(HeaderLines(h), header);
    SizedRequestRoundTrip(header, body, pipelined, urlsplit);
  }

  lemma LengthIsRead(body: Bytes)
    requires |body| <= Chunked.MAX_BODY_BYTES
    ensures ParseInt(Decimal(|body|), 10) == Some(|body|)
  {
    SmallNumeral(|body|, 6);
    ParseIntReads(|body|, 10);
    hide ParseInt, Numeral;
  }

  function Tens(k: nat): nat { if k == 0 then 1 else 10 * Tens(k - 1) }

  lemma {:induction false} SmallNumeral(n: nat, k: nat)
    requires 0 < k && n < Tens(k)
    ensures |Decimal(n)| <= k
    decreases k
  {
    if n >= 10 { SmallNumeral(n / 10, k - 1); }
  }

  /** The same for a request printed in chunks. */
  lemma ChunkedRequestIsReadBack(verb: Bytes, target: Bytes, version: Bytes, h: Headers, chunks: seq<Bytes>,
                                 pipelined: Bytes, urlsplit: UrlSplit, name: Bytes)
    requires Acceptable(verb, target, version, urlsplit) && Printable(h)
    requires version == "HTTP/1.1" ==> LastNamed(h, "host").Some?
    requires |Head(verb, target, version, h)| + 4 <= MAX_HEADER_BYTES
    requires TimesNamed(h, "content-length") == 0 && TimesNamed(h, "transfer-encoding") == 1
    requires LastNamed(h, "transfer-encoding").Some?
             && Occurs(Lower(LastNamed(h, "transfer-encoding").value), "chunked")
    requires Chunked.AllFilled(chunks) && |Flatten(chunks)| <= Chunked.MAX_BODY_BYTES
    ensures var m := Head(verb, target, version, h) + SEPARATOR + Chunked.Encode(chunks);
            && Verdict(m + pipelined) == Message(|m|) && Parse(m, urlsplit).Ok?
            && var r := Parse(m, urlsplit).value;
               && r.verb == Upper(verb) && r.target == target && r.version == version && r.body == Flatten(chunks)
               && (if name in r.headers then LastNamed(h, name) == Some(r.headers[name])
                   else LastNamed(h, name) == None)
  {
    hide Verdict, Parse, Find, Head, FieldsOf, FillHeaders, HeaderLines, ParsePreamble, InspectFields, KeepAlive,
         Acceptable, LastNamed, LastFor, CountFor, TimesNamed, Printable, ParseInt, ScanFor, Upper, Lower, Occurs,
         Chunked.Encode, Chunked.AllFilled, Flatten;
    var header := Head(verb, target, version, h);
    RequestIsReadBack(verb, target, version, h, Flatten(chunks), urlsplit, name);
    FieldsAreRead(h, map[], "content-length");
    FieldsAreRead(h, map[], "transfer-encoding");
    FirstAgainstLast(HeaderLines(h), map[], "content-length");
    PrintedFraming(HeaderLines(h), header);
    ChunkedRequestRoundTrip(header, chunks, pipelined, urlsplit);
  }
}

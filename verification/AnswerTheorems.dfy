/** What the answers of both engines mean in terms of the bytes of a request: which status refuses it,
    when the connection closes behind it, and when it is told to continue. */
module AnswerTheorems {
  import opened Wrappers
  import opened ByteStrings
  import opened TextReading
  import opened Framer
  import opened RequestParser
  import opened Engine
  import opened ResponseFraming
  import Responses
  import EngineAgreement
  import Chunked

  // ----- fields -----

  /** A field is read whatever the case of its name and whatever white space stands around name and
      value. */
  lemma FieldIsRead(before: Bytes, name: Bytes, after: Bytes, pre: Bytes, value: Bytes, post: Bytes)
    requires AllSpace(before, TextSpace) && AllSpace(after, TextSpace) && Bare(name, TextSpace) && ':' !in name
    requires AllSpace(pre, TextSpace) && AllSpace(post, TextSpace) && Bare(value, TextSpace)
    ensures var line := before + name + after + ":" + (pre + value + post);
            ':' in line && FieldName(line) == Lower(name) && FieldValue(line) == value
  {
    var key, rest := before + name + after, pre + value + post;
    var line := key + ":" + rest;
    NoColon(before);
    NoColon(after);
    StripTakesAway(before, name, after, TextSpace);
    StripTakesAway(pre, value, post, TextSpace);
    assert line[|key|] == ':' && line[..|key|] == key && line[|key| + 1..] == rest;
    IndexOfIs(line, ':', |key|);
    hide Strip, Lower;
  }

  lemma NoColon(s: Bytes)
    requires AllSpace(s, TextSpace)
    ensures ':' !in s
  {}

  predicate IsAscii(s: Bytes) { forall i :: 0 <= i < |s| ==> s[i] as int < 128 }

  /** Names that differ in the case of plain letters alone are the same to the parser. */
  lemma CaseDoesNotMatter(name: Bytes)
    requires IsAscii(name)
    ensures Lower(Upper(name)) == Lower(name) && Upper(Lower(name)) == Upper(name)
    ensures Upper("abcdefghijklmnopqrstuvwxyz") == "ABCDEFGHIJKLMNOPQRSTUVWXYZ"
  {}

  // ----- closing -----

  /** A served request is answered in its turn. The connection closes behind it if it is the
      thousandth; an earlier one closes on HTTP/1.1 if and only if its Connection field says close,
      and keeps open on HTTP/1.0 if and only if it says keep-alive, in any case. */
  lemma ClosesAsAsked(env: Env, raw: Bytes, served: nat)
    requires AnswerTo(env, raw, served).Served?
    ensures var a := AnswerTo(env, raw, served);
            var h := a.request.headers;
            && a.ordinal == served + 1 && (served + 1 >= 1000 ==> a.close)
            && (a.request.version == "HTTP/1.1" || a.request.version == "HTTP/1.0")
            && (served + 1 < 1000 && a.request.version == "HTTP/1.1" ==>
                  (a.close <==> "connection" in h && Occurs(Lower(h["connection"]), "close")))
            && (served + 1 < 1000 && a.request.version == "HTTP/1.0" ==>
                  (!a.close <==> "connection" in h && Occurs(Lower(h["connection"]), "keep-alive")))
  {
    var request := AnswerTo(env, raw, served).request;
    VersionIsKnown(raw, env.urlsplit);
    NothingIsAsked();
    if "connection" in request.headers {
      ContainsIsOccurrence(Lower(request.headers["connection"]), "close");
      ContainsIsOccurrence(Lower(request.headers["connection"]), "keep-alive");
    }
    hide ParsePreamble, BodyOf, Contains, Lower, Find;
  }

  lemma NothingIsAsked()
    ensures !Contains(Lower(""), "close") && !Contains(Lower(""), "keep-alive")
  {}

  lemma VersionIsKnown(raw: Bytes, urlsplit: UrlSplit)
    requires Parse(raw, urlsplit).Ok?
    ensures Parse(raw, urlsplit).value.version == "HTTP/1.1" || Parse(raw, urlsplit).value.version == "HTTP/1.0"
    ensures Parse(raw, urlsplit).value.keepAlive
            == KeepAlive(Parse(raw, urlsplit).value.version, Parse(raw, urlsplit).value.headers)
  {
    hide FillHeaders, BodyOf, SplitOn, Upper, KeepAlive, Find;
  }

  /** While the server drains, any request but the first of its connection is turned away, and the
      connection is closed; otherwise the request is served. */
  lemma DrainingTurnsAway(env: Env, raw: Bytes, served: nat)
    requires Parse(raw, env.urlsplit).Ok?
    ensures AnswerTo(env, raw, served).Draining? <==> served >= 1 && env.draining(served + 1)
    ensures AnswerTo(env, raw, served).Draining? || AnswerTo(env, raw, served).Served?
    ensures AnswerTo(env, raw, served).request == Parse(raw, env.urlsplit).value
    ensures !AnswerTo(env, raw, served).Served? ==> CloseAfter(AnswerTo(env, raw, served))
  {
    hide RequestParser.Parse;
  }

  // ----- the request line -----

  predicate IsWord(s: Bytes) { s != [] && ' ' !in s }

  /** The methods of section 9.3 of RFC 9110, and PATCH of RFC 5789. */
  predicate IsStandard(verb: Bytes) {
    || verb == "GET" || verb == "HEAD" || verb == "POST" || verb == "PUT" || verb == "DELETE"
    || verb == "CONNECT" || verb == "OPTIONS" || verb == "TRACE" || verb == "PATCH"
  }

  /** A printed request line is read as its three words, the method in any case; where one of them is
      refused, the first reason counts. */
  lemma RequestLineIsRead(verb: Bytes, target: Bytes, version: Bytes, urlsplit: UrlSplit)
    requires IsWord(verb) && IsWord(target) && IsWord(version)
    ensures ParseRequestLine(verb + " " + target + " " + version, urlsplit)
            == if !IsStandard(Upper(verb)) then Err(UnknownMethod)
               else if version != "HTTP/1.1" && version != "HTTP/1.0" then Err(UnknownVersion)
               else if |target| > 2048 then Err(TargetTooLong)
               else
                 match urlsplit(target)
                 case None => Err(BadTarget)
                 case Some(url) => Ok(RequestLine(Upper(verb), target, version, url))
  {
    WordsAreSplit(verb, target, version);
    NoSplit(version);
    KnownIsStandard(Upper(verb));
    hide SplitOn, Upper, KNOWN_METHODS, IsStandard;
  }

  lemma KnownIsStandard(verb: Bytes)
    ensures verb in KNOWN_METHODS <==> IsStandard(verb)
  {}

  /** What the answer is when the request line is refused. */
  lemma RefusedRequestLine(env: Env, raw: Bytes, served: nat, verb: Bytes, target: Bytes, version: Bytes)
    requires Find(raw, SEPARATOR, 0) >= 0
    requires Lines(raw[..Find(raw, SEPARATOR, 0)])[0] == verb + " " + target + " " + version
    requires IsWord(verb) && IsWord(target) && IsWord(version)
    ensures !IsStandard(Upper(verb)) ==> AnswerTo(env, raw, served) == Rejected(501)
    ensures IsStandard(Upper(verb)) && version != "HTTP/1.1" && version != "HTTP/1.0" ==>
              AnswerTo(env, raw, served) == Rejected(505)
    ensures IsStandard(Upper(verb)) && (version == "HTTP/1.1" || version == "HTTP/1.0") && |target| > 2048 ==>
              AnswerTo(env, raw, served) == Rejected(414)
    ensures (IsStandard(Upper(verb)) && (version == "HTTP/1.1" || version == "HTTP/1.0") && |target| <= 2048
             && env.urlsplit(target).None?) ==> AnswerTo(env, raw, served) == Rejected(400)
  {
    hide Find, Lines, IsStandard, Upper, SplitOn, ParseRequestLine, IsWord;
    RequestLineIsRead(verb, target, version, env.urlsplit);
  }

  ghost predicate IsThreeWords(line: Bytes) {
    exists verb, target, version :: IsWord(verb) && IsWord(target) && IsWord(version)
                                    && line == verb + " " + target + " " + version
  }

  lemma ThreeParts(line: Bytes)
    requires var parts := SplitOn(line, ' '); |parts| == 3 && parts[0] != [] && parts[1] != [] && parts[2] != []
    ensures IsThreeWords(line)
  {
    var i := IndexOf(line, ' ');
    var rest := line[i + 1..];
    var j := IndexOf(rest, ' ');
    var last := rest[j + 1..];
    assert SplitOn(line, ' ') == [line[..i]] + ([rest[..j]] + SplitOn(last, ' '));
    assert SplitOn(last, ' ') == [last];
    assert IsWord(line[..i]) && IsWord(rest[..j]) && IsWord(last);
    assert rest == rest[..j] + " " + last;
    assert line == line[..i] + " " + rest == line[..i] + " " + rest[..j] + " " + last;
  }

  /** A request line that is not three words with single blanks between them is answered with 400. */
  lemma BrokenRequestLineIsRefused(env: Env, raw: Bytes, served: nat)
    requires Find(raw, SEPARATOR, 0) >= 0
    requires !IsThreeWords(Lines(raw[..Find(raw, SEPARATOR, 0)])[0])
    ensures AnswerTo(env, raw, served) == Rejected(400)
  {
    hide Find, Lines, IsThreeWords, Upper, SplitOn;
    var line := Lines(raw[..Find(raw, SEPARATOR, 0)])[0];
    var parts := SplitOn(line, ' ');
    if |parts| == 3 && parts[0] != [] && parts[1] != [] && parts[2] != [] { ThreeParts(line); }
  }

  // ----- a refused head -----

  /** What an accepted head announces: a chunked body if the transfer coding says so in any case and
      there is no length, and otherwise as many bytes as the length says, or none without one. */
  lemma HeadAnnounces(header: Bytes)
    requires InspectFields(header, |header|).HeadInfo?
    ensures var fields, head := FieldsOf(header), InspectFields(header, |header|);
            var coding, length := ScanFor(fields, "transfer-encoding"), ScanFor(fields, "content-length");
            && (head.chunked <==> coding.Found? && Occurs(Lower(coding.value), "chunked"))
            && (head.chunked ==> length.NotFound? && head.expectedLength == 0)
            && (!head.chunked && length.NotFound? ==> head.expectedLength == 0)
            && (!head.chunked && length.Found? ==> ParseInt(length.value, 10) == Some(head.expectedLength))
            && head.expectedLength <= 524_288
  {
    var coding := ScanFor(FieldsOf(header), "transfer-encoding");
    if coding.Found? { ContainsIsOccurrence(Lower(coding.value), "chunked"); }
    hide ScanFor, FieldsOf, ParseInt, Contains, Lower, Occurs;
  }

  /** Without its separator a header section is waited for up to the limit; over it, or with a
      separator that ends behind it, the section is answered with 431, whatever it holds. */
  lemma LongHeadIsRefused(env: Env, stream: Bytes, served: nat)
    ensures var end := Find(stream, SEPARATOR, 0);
            && (end < 0 && |stream| <= 16_384 ==> Fold(env, stream, served) == Folded([], false, stream, served))
            && (|stream| > 16_384 && (end < 0 || end + 4 > 16_384) ==>
                  Fold(env, stream, served) == Folded([Rejected(431)], true, stream, served))
  {
    hide Find, InspectFields;
  }

  /** A buffer over a mebibyte is answered with 413 by both engines, whatever it holds. */
  lemma BigBufferIsRefused(env: Env, s: ReadState, chunk: Bytes, pieces: seq<Bytes>)
    requires |s.buffer + chunk| > 1_048_576
    ensures ReadEvent(env, s, chunk).answers == s.answers + [Rejected(413)] && ReadEvent(env, s, chunk).closing
    ensures ReadMessage(s.buffer + chunk, pieces).Refused?
            && ReadStatus(ReadMessage(s.buffer + chunk, pieces).error) == 413
  {
    hide HeadOf;
  }

  /** The first field that announces the body without chunked coding, and what is wrong with it: a
      length that is no number or below zero is answered with 400, one over the limit with 413. */
  lemma BadLengthIsRefused(env: Env, header: Bytes, rest: Bytes, served: nat, length: Bytes)
    requires IsHeader(header)
    requires ScanFor(FieldsOf(header), "content-length") == Found(length)
    requires ScanFor(FieldsOf(header), "transfer-encoding") == NotFound
    ensures var n, f := ParseInt(length, 10), Fold(env, header + SEPARATOR + rest, served);
            && (n.None? || n.value < 0 ==> f.answers == [Rejected(400)] && f.closed)
            && (n.Some? && n.value > 524_288 ==> f.answers == [Rejected(413)] && f.closed)
  {
    hide ScanFor, FieldsOf, ParseInt, IsHeader, Find, HeadOf;
    HeaderIsFound(header, rest);
  }

  /** Chunked coding together with a length, or a field line without a colon before one of the fields
      the framer looks for, is answered with 400. */
  lemma MalformedHeadIsRefused(env: Env, header: Bytes, rest: Bytes, served: nat)
    requires IsHeader(header)
    requires var fields := FieldsOf(header);
             var length := ScanFor(fields, "content-length");
             || ScanFor(fields, "transfer-encoding").BadLine? || length.BadLine?
             || (SaysChunked(ScanFor(fields, "transfer-encoding")) && length.Found?)
             || (ScanFor(fields, "expect").BadLine?
                 && (length.Found? ==> ParseInt(length.value, 10).Some? && ParseInt(length.value, 10).value <= 524_288))
    ensures Fold(env, header + SEPARATOR + rest, served).answers == [Rejected(400)]
  {
    hide ScanFor, FieldsOf, ParseInt, IsHeader, Find, HeadOf, SaysChunked;
    HeaderIsFound(header, rest);
  }

  /** A chunked body the framer refuses: too large is answered with 413, anything else with 400. */
  lemma BadChunksAreRefused(env: Env, header: Bytes, rest: Bytes, served: nat)
    requires IsHeader(header) && InspectFields(header, |header|).HeadInfo? && InspectFields(header, |header|).chunked
    ensures Chunked.Frame(rest) == Chunked.TooLarge ==>
              Fold(env, header + SEPARATOR + rest, served).answers == [Rejected(413)]
    ensures Chunked.Frame(rest) == Chunked.BadChunk ==>
              Fold(env, header + SEPARATOR + rest, served).answers == [Rejected(400)]
  {
    hide InspectFields, IsHeader, Find, HeadOf, Chunked.Frame;
    InspectFieldsBounds(header, |header|);
    HeaderIsFound(header, rest);
  }

  /** A chunked body the parser cannot decode: too large is answered with 413, anything else with
      400. */
  lemma BadBodyIsRefused(env: Env, raw: Bytes, served: nat, headers: map<Bytes, Bytes>, reason: Chunked.DecodeError)
    requires Find(raw, SEPARATOR, 0) >= 0 && ParsePreamble(raw[..Find(raw, SEPARATOR, 0)], env.urlsplit).Ok?
    requires headers == ParsePreamble(raw[..Find(raw, SEPARATOR, 0)], env.urlsplit).value.headers
    requires "content-length" !in headers && DictSaysChunked(headers)
    requires Chunked.Decode(raw[Find(raw, SEPARATOR, 0) + 4..]) == Chunked.Undecodable(reason)
    ensures AnswerTo(env, raw, served) == if reason == Chunked.DecodedTooLarge then Rejected(413) else Rejected(400)
  {
    hide Find, ParsePreamble, Chunked.Decode, DictSaysChunked;
  }

  /** A body that conflicts with the repeated fields of its head is answered with 413 if the framer
      took it for chunked, and with 400 otherwise. */
  lemma ConflictIsRefused(env: Env, raw: Bytes, served: nat)
    requires Verdict(raw) == Message(|raw|)
    requires var header := raw[..Find(raw, SEPARATOR, 0)];
             ParsePreamble(header, env.urlsplit).Ok? && FramingConflict(header, |raw| - |header| - 4)
    ensures var header := raw[..Find(raw, SEPARATOR, 0)];
            AnswerTo(env, raw, served)
            == if SaysChunked(ScanFor(FieldsOf(header), "transfer-encoding")) then Rejected(413) else Rejected(400)
  {
    hide FramingConflict, InspectFields, FieldsOf, FillHeaders, ParseRequestLine, Verdict, BodyOf, Request, Find;
    hide Chunked.Frame, ScanFor, SaysChunked;
    MessageShape(raw);
    FramedMessagesParse(raw, env.urlsplit);
    var header := raw[..Find(raw, SEPARATOR, 0)];
    ConflictStatus(header, raw[|header| + 4..]);
  }

  lemma ConflictStatus(header: Bytes, body: Bytes)
    requires InspectFields(header, |header|).HeadInfo? && FillHeaders(FieldsOf(header), map[]).Ok?
    requires if InspectFields(header, |header|).chunked then Chunked.Frame(body) == Chunked.Complete(|body|)
             else InspectFields(header, |header|).expectedLength == |body|
    requires FramingConflict(header, |body|)
    ensures var r := BodyOf(FillHeaders(FieldsOf(header), map[]).value, body);
            && r.Err?
            && StatusOf(r.error) == if SaysChunked(ScanFor(FieldsOf(header), "transfer-encoding")) then 413 else 400
  {
    hide ScanFor, LastFor, CountFor, FillHeaders, FieldsOf, ParseInt, Contains, Lower, Chunked.Frame, Chunked.Decode;
    var fields := FieldsOf(header);
    DictionaryKeepsTheLast(fields, map[], "transfer-encoding");
    DictionaryKeepsTheLast(fields, map[], "content-length");
    FirstAgainstLast(fields, map[], "transfer-encoding");
    FirstAgainstLast(fields, map[], "content-length");
    if InspectFields(header, |header|).chunked {
      Chunked.FramerAndDecoderAgree(body, |body|);
      assert body[..|body|] == body;
    } else if body == [] {
      EmptyBodyIsNoChunkedBody();
    }
  }

  /** HTTP/1.1 asks for a Host field, HTTP/1.0 does not. */
  lemma HostIsRequired(env: Env, raw: Bytes, served: nat)
    requires Find(raw, SEPARATOR, 0) >= 0
    requires var header := raw[..Find(raw, SEPARATOR, 0)];
             ParseRequestLine(Lines(header)[0], env.urlsplit).Ok? && FillHeaders(FieldsOf(header), map[]).Ok?
    ensures var header := raw[..Find(raw, SEPARATOR, 0)];
            var missing := ParseRequestLine(Lines(header)[0], env.urlsplit).value.version == "HTTP/1.1"
                           && "host" !in FillHeaders(FieldsOf(header), map[]).value;
            && (missing ==> AnswerTo(env, raw, served) == Rejected(400))
            && (!missing <==> ParsePreamble(header, env.urlsplit).Ok?)
  {
    hide Find, Lines, FillHeaders, ParseRequestLine, BodyOf;
  }

  /** A field with an empty name, or a line without a colon, is answered with 400. */
  lemma {:induction false} BadFieldIsRefused(fields: seq<Bytes>, headers: map<Bytes, Bytes>, i: nat)
    requires i < |fields| && fields[i] != [] && (':' !in fields[i] || FieldName(fields[i]) == [])
    ensures FillHeaders(fields, headers).Err? && StatusOf(FillHeaders(fields, headers).error) == 400
    decreases |fields|
  {
    hide FieldName, FieldValue;
    if i > 0 && fields[0] == [] {
      BadFieldIsRefused(fields[1..], headers, i - 1);
    } else if i > 0 && ':' in fields[0] && FieldName(fields[0]) != [] {
      BadFieldIsRefused(fields[1..], headers[FieldName(fields[0]) := FieldValue(fields[0])], i - 1);
    }
  }

  // ----- 100 Continue -----

  /** The request asks to be told to continue, as the parser's dictionary has it. */
  predicate DictAsks(headers: map<Bytes, Bytes>) {
    "expect" in headers && Lower(headers["expect"]) == "100-continue"
  }

  /** The framer's flag and the parser's dictionary say the same. */
  lemma ExpectationIsRead(header: Bytes)
    requires InspectFields(header, |header|).HeadInfo? && FillHeaders(FieldsOf(header), map[]).Ok?
    requires CountFor(FieldsOf(header), "expect") <= 1
    ensures InspectFields(header, |header|).expectContinue <==> DictAsks(FillHeaders(FieldsOf(header), map[]).value)
  {
    hide ScanFor, LastFor, CountFor, FillHeaders, FieldsOf, ParseInt, Contains, Lower, SaysChunked;
    FirstAgainstLast(FieldsOf(header), map[], "expect");
    DictionaryKeepsTheLast(FieldsOf(header), map[], "expect");
  }

  /** While a message with an accepted head is incomplete, either engine tells the peer to continue if
      and only if the request asks for it; the selectors engine unless it already has. */
  lemma ContinueIsSentWhenAsked(s: ReadState, sent: bool)
    requires Extract(s.buffer).Incomplete? && InspectHead(s.buffer).HeadInfo?
    requires s.continueSent == if sent then {Find(s.buffer, SEPARATOR, 0)} else {}
    requires var fields := FieldsOf(s.buffer[..Find(s.buffer, SEPARATOR, 0)]);
             FillHeaders(fields, map[]).Ok? && CountFor(fields, "expect") <= 1
    ensures var asks := DictAsks(FillHeaders(FieldsOf(s.buffer[..Find(s.buffer, SEPARATOR, 0)]), map[]).value);
            && (AsksToContinue(s.buffer) <==> asks)
            && MaybeContinue(s).interim == s.interim + if asks && !sent then [s.served] else []
  {
    var header := s.buffer[..Find(s.buffer, SEPARATOR, 0)];
    EngineAgreement.SameQuestion(s, sent);
    ExpectationIsRead(header);
    HeadInfoIsInBuffer(s.buffer);
    IncompleteAsks(s.buffer);
    hide InspectFields, FieldsOf, FillHeaders, CountFor, Find, AsksToContinue, MaybeContinue, Extract;
  }

  lemma IncompleteAsks(b: Bytes)
    requires Extract(b).Incomplete? && InspectHead(b).HeadInfo?
    ensures AsksToContinue(b) <==> InspectFields(b[..Find(b, SEPARATOR, 0)], Find(b, SEPARATOR, 0)).expectContinue
    ensures Find(b, SEPARATOR, 0) >= 0 && InspectFields(b[..Find(b, SEPARATOR, 0)], Find(b, SEPARATOR, 0)).HeadInfo?
  {
    hide InspectFields, Chunked.Frame, Find;
    HeadInfoIsInBuffer(b);
  }
}

/** `socket_handler.py`: the verdict on a growing receive buffer. */
module Framer {
  import opened Wrappers
  import opened ByteStrings
  import Chunked
  import ChunkLoops
  import SignedLoops

  const MAX_REQUEST_BYTES := 1_048_576
  const MAX_HEADER_BYTES := 16_384

  // ----- header scanners -----

  datatype Scan = NotFound | Found(value: Bytes) | BadLine

  function FieldName(line: Bytes): Bytes { Lower(Strip(Before(line, ':'), TextSpace)) }

  function FieldValue(line: Bytes): Bytes
    requires ':' in line
  {
    Strip(After(line, ':'), TextSpace)
  }

  /** First field called `name`; a line without a colon before it is an error. */
  function ScanFor(fields: seq<Bytes>, name: Bytes): Scan {
    if fields == [] then NotFound
    else if fields[0] == [] then ScanFor(fields[1..], name)
    else if ':' !in fields[0] then BadLine
    else if FieldName(fields[0]) == name then Found(FieldValue(fields[0]))
    else ScanFor(fields[1..], name)
  }

  /** The field lines: everything after the request line. */
  function FieldsOf(header: Bytes): seq<Bytes> { Lines(header)[1..] }

  predicate SaysChunked(transferEncoding: Scan) {
    transferEncoding.Found? && Contains(Lower(transferEncoding.value), "chunked")
  }

  // ----- verdicts -----

  datatype ReadError = HeaderTooLarge | PayloadTooLarge | Malformed

  datatype Head =
    | NoHead
    | BadHead(error: ReadError)
    | HeadInfo(headerEnd: nat, expectedLength: nat, chunked: bool, expectContinue: bool)

  /** `SignedSize` is no verdict of the source: it marks a buffer whose chunked body reaches a size
      with a minus sign, about which the functions here say nothing. */
  datatype Extracted =
    | Incomplete
    | Failed(error: ReadError)
    | Message(length: nat)
    | SignedSize

  /** The header section `header`, which ends at `headerEnd`, is looked at field by field. */
  function InspectFields(header: Bytes, headerEnd: nat): Head {
    var fields := FieldsOf(header);
    var transferEncoding, contentLength := ScanFor(fields, "transfer-encoding"), ScanFor(fields, "content-length");
    var chunked := SaysChunked(transferEncoding);
    if transferEncoding.BadLine? then BadHead(Malformed)
    else if contentLength.BadLine? || (chunked && contentLength.Found?) then BadHead(Malformed)
    else
      var length := if chunked || contentLength.NotFound? then Some(0) else ParseInt(contentLength.value, 10);
      if length.None? || length.value < 0 then BadHead(Malformed)
      else if length.value > Chunked.MAX_BODY_BYTES then BadHead(PayloadTooLarge)
      else
        var expectation := ScanFor(fields, "expect");
        if expectation.BadLine? then BadHead(Malformed)
        else
          var expectContinue := expectation.Found? && Lower(expectation.value) == "100-continue";
          HeadInfo(headerEnd, length.value, chunked, expectContinue)
  }

  /** `inspect_http_request_head` without its first guard, the one on the whole buffer. */
  function HeadOf(buffer: Bytes): Head {
    var headerEnd := Find(buffer, SEPARATOR, 0);
    if headerEnd == -1 then
      if |buffer| > MAX_HEADER_BYTES then BadHead(HeaderTooLarge) else NoHead
    else if headerEnd + 4 > MAX_HEADER_BYTES then BadHead(HeaderTooLarge)
    else InspectFields(buffer[..headerEnd], headerEnd)
  }

  /** `inspect_http_request_head` */
  function InspectHead(buffer: Bytes): Head {
    if |buffer| > MAX_REQUEST_BYTES then BadHead(PayloadTooLarge) else HeadOf(buffer)
  }

  /** What the measure of a chunked body says about the message it belongs to. */
  function Judged(measure: Chunked.FrameVerdict, bodyStart: nat): Extracted {
    match measure
    case NeedMore => Incomplete
    case Complete(n) => Message(bodyStart + n)
    case TooLarge => Failed(PayloadTooLarge)
    case BadChunk => Failed(Malformed)
    case SignedSize => SignedSize
  }

  function ExtractAfter(head: Head, buffer: Bytes): Extracted
    requires head.HeadInfo? ==> head.headerEnd + 4 <= |buffer|
  {
    match head
    case NoHead => Incomplete
    case BadHead(e) => Failed(e)
    case HeadInfo(headerEnd, expectedLength, chunked, _) =>
      var bodyStart := headerEnd + 4;
      if chunked then Judged(Chunked.Frame(buffer[bodyStart..]), bodyStart)
      else if |buffer| < bodyStart + expectedLength then Incomplete
      else Message(bodyStart + expectedLength)
  }

  /** The verdict when no limit is put on the buffer as a whole. */
  function Verdict(buffer: Bytes): Extracted {
    ExtractAfter(HeadOf(buffer), buffer)
  }

  /** `extract_http_request_message` */
  function Extract(buffer: Bytes): Extracted {
    ExtractAfter(InspectHead(buffer), buffer)
  }

  lemma HeadInfoIsInBuffer(buffer: Bytes)
    ensures HeadOf(buffer).HeadInfo? ==> HeadOf(buffer).headerEnd == Find(buffer, SEPARATOR, 0) <= MAX_HEADER_BYTES - 4
  {}

  lemma InspectFieldsBounds(header: Bytes, headerEnd: nat)
    requires InspectFields(header, headerEnd).HeadInfo?
    ensures InspectFields(header, headerEnd).headerEnd == headerEnd
    ensures InspectFields(header, headerEnd).expectedLength <= Chunked.MAX_BODY_BYTES
  {}

  /** What it means for a buffer to be exactly one message. */
  lemma MessageShape(m: Bytes)
    requires Verdict(m) == Message(|m|)
    ensures var end := Find(m, SEPARATOR, 0);
            && end >= 0 && InspectFields(m[..end], end).HeadInfo?
            && (if InspectFields(m[..end], end).chunked
                then Chunked.Frame(m[end + 4..]) == Chunked.Complete(|m| - end - 4)
                else InspectFields(m[..end], end).expectedLength == |m| - end - 4)
  {
    hide InspectFields, Chunked.Frame, Find;
    var end := Find(m, SEPARATOR, 0);
    assert end >= 0;
    assert HeadOf(m) == InspectFields(m[..end], end);
    InspectFieldsBounds(m[..end], end);
  }

  // ----- the verdicts of the source, minus signs included -----

  /** The body of a buffer whose head says chunked. */
  predicate HasChunkedBody(buffer: Bytes) { HeadOf(buffer).HeadInfo? && HeadOf(buffer).chunked }

  function ChunkedBody(buffer: Bytes): Bytes
    requires HasChunkedBody(buffer)
  {
    HeadInfoIsInBuffer(buffer);
    buffer[HeadOf(buffer).headerEnd + 4..]
  }

  /** The source comes to verdict `v` on a buffer within the limit: for a chunked body, that of the
      measuring loop. */
  ghost predicate Judges(buffer: Bytes, v: Extracted) {
    if HasChunkedBody(buffer)
    then exists m :: ChunkLoops.Measures(ChunkedBody(buffer), m) && v == Judged(m, HeadOf(buffer).headerEnd + 4)
    else v == Verdict(buffer)
  }

  /** The same with the guard on the whole buffer. */
  ghost predicate Extracts(buffer: Bytes, v: Extracted) {
    if |buffer| > MAX_REQUEST_BYTES then v == Failed(PayloadTooLarge) else Judges(buffer, v)
  }

  /** The source comes to a verdict at all. */
  ghost predicate Halts(buffer: Bytes) {
    |buffer| <= MAX_REQUEST_BYTES && HasChunkedBody(buffer) ==> ChunkLoops.FramerHalts(ChunkedBody(buffer))
  }

  /** Where no size has a minus sign, that is the verdict of the function. */
  lemma JudgesIsVerdict(buffer: Bytes, v: Extracted)
    requires !Verdict(buffer).SignedSize?
    ensures Judges(buffer, v) <==> v == Verdict(buffer)
  {
    hide HeadOf, Chunked.Frame, ChunkLoops.Measures;
    if HasChunkedBody(buffer) {
      var body := ChunkedBody(buffer);
      assert Verdict(buffer) == Judged(Chunked.Frame(body), HeadOf(buffer).headerEnd + 4);
      ChunkLoops.FramerEnds(body, Chunked.Frame(body));
      forall m ensures ChunkLoops.Measures(body, m) <==> m == Chunked.Frame(body) { ChunkLoops.FramerEnds(body, m); }
    }
  }

  lemma UnsignedHalts(buffer: Bytes)
    requires !Extract(buffer).SignedSize?
    ensures Halts(buffer)
    ensures forall v :: Extracts(buffer, v) <==> v == Extract(buffer)
  {
    hide Judges, Halts;
    if |buffer| <= MAX_REQUEST_BYTES {
      assert Extract(buffer) == Verdict(buffer);
      forall v ensures Judges(buffer, v) <==> v == Verdict(buffer) { JudgesIsVerdict(buffer, v); }
    }
    JudgingHalts(buffer);
  }

  lemma JudgingHalts(buffer: Bytes)
    requires !Extract(buffer).SignedSize?
    ensures Halts(buffer)
  {
    hide InspectFields, Find, Chunked.Frame, ChunkLoops.Measures;
    if |buffer| <= MAX_REQUEST_BYTES && HasChunkedBody(buffer) {
      var body := ChunkedBody(buffer);
      ChunkLoops.FramerEnds(body, Chunked.Frame(body));
    }
  }

  /** `extract_http_request_message`, wherever it comes to a verdict. */
  method ExtractMessage(buffer: Bytes) returns (verdict: Extracted)
    requires Halts(buffer)
    ensures Extracts(buffer, verdict)
    ensures !Extract(buffer).SignedSize? ==> verdict == Extract(buffer)
  {
    hide InspectFields, Find, Chunked.Frame, ChunkLoops.Measures;
    HeadInfoIsInBuffer(buffer);
    var head := InspectHead(buffer);
    match head {
      case NoHead => return Incomplete;
      case BadHead(e) => return Failed(e);
      case HeadInfo(headerEnd, expectedLength, chunked, _) =>
        var bodyStart := headerEnd + 4;
        if chunked {
          assert buffer[bodyStart..] == ChunkedBody(buffer);
          var body := ChunkLoops.ChunkedBodyCompleteLength(buffer[bodyStart..]);
          return Judged(body, bodyStart);
        }
        if |buffer| < bodyStart + expectedLength { return Incomplete; }
        return Message(bodyStart + expectedLength);
    }
  }

  // ----- properties -----

  lemma EmptyIsIncomplete()
    ensures Verdict([]) == Incomplete
  {}

  /** A message lies inside the buffer and has at least the separator. */
  lemma MessageFits(buffer: Bytes)
    requires Verdict(buffer).Message?
    ensures 4 <= Verdict(buffer).length <= |buffer|
  {
    hide InspectFields, Chunked.FrameChunks;
    HeadInfoIsInBuffer(buffer);
    var head := HeadOf(buffer);
    if head.chunked { Chunked.FrameChunksFits(buffer[head.headerEnd + 4..], 0, 0); }
  }

  /** A head that has been seen does not change when the buffer grows. */
  lemma HeadIsStable(b: Bytes, b': Bytes)
    requires b <= b' && !HeadOf(b).NoHead?
    ensures HeadOf(b') == HeadOf(b)
  {
    hide InspectFields;
    if Find(b, SEPARATOR, 0) >= 0 {
      FindExtends(b, b', SEPARATOR, 0);
      assert b'[..Find(b, SEPARATOR, 0)] == b[..Find(b, SEPARATOR, 0)];
    } else if Find(b', SEPARATOR, 0) >= 0 {
      if Find(b', SEPARATOR, 0) + 4 <= |b| { FindShrinks(b, b', SEPARATOR, 0); }
    }
  }

  lemma SeenVerdictIsStable(b: Bytes, b': Bytes)
    requires b <= b' && !Verdict(b).Incomplete?
    ensures Verdict(b') == Verdict(b)
  {
    hide InspectFields, Chunked.FrameChunks;
    HeadIsStable(b, b');
    HeadInfoIsInBuffer(b);
    var head := HeadOf(b);
    if head.HeadInfo? && head.chunked {
      var start := head.headerEnd + 4;
      assert b[start..] <= b'[start..];
      Chunked.FrameChunksStable(b[start..], b'[start..], 0, 0);
    }
  }

  /** Some turn of the loop over the chunked body looks for a terminator at the end of the buffer. */
  ghost predicate ReachesTheEnd(buffer: Bytes) {
    HasChunkedBody(buffer) && SignedLoops.ReachesTheEnd(ChunkedBody(buffer))
  }

  lemma ChunkedBodyGrows(b: Bytes, b': Bytes)
    requires b <= b' && HasChunkedBody(b)
    ensures HasChunkedBody(b') && HeadOf(b') == HeadOf(b)
    ensures ChunkedBody(b') == ChunkedBody(b) + b'[|b|..]
  {
    HeadIsStable(b, b');
    HeadInfoIsInBuffer(b);
    hide HeadOf;
    var start := HeadOf(b).headerEnd + 4;
    assert b'[start..] == b[start..] + b'[|b|..];
  }

  /** A chunked body never has two verdicts that mean the same for the message. */
  lemma JudgedOnce(m: Chunked.FrameVerdict, m': Chunked.FrameVerdict, bodyStart: nat)
    requires Judged(m, bodyStart) == Judged(m', bodyStart)
    ensures m == m'
  {}

  lemma JudgedBody(b: Bytes, v: Extracted) returns (m: Chunked.FrameVerdict)
    requires HasChunkedBody(b) && Judges(b, v)
    ensures ChunkLoops.Measures(ChunkedBody(b), m) && v == Judged(m, HeadOf(b).headerEnd + 4)
  {
    hide HeadOf;
    m :| ChunkLoops.Measures(ChunkedBody(b), m) && v == Judged(m, HeadOf(b).headerEnd + 4);
  }

  lemma StandsForChunked(b: Bytes, v: Extracted)
    requires HasChunkedBody(b) && Judges(b, v) && !v.Incomplete?
    ensures (forall b' :: b <= b' ==> Judges(b', v)) <==> !ReachesTheEnd(b)
  {
    var start, body := HeadOf(b).headerEnd + 4, ChunkedBody(b);
    hide HeadOf, ChunkLoops.Measures, SignedLoops.ReachesTheEnd, HasChunkedBody, ChunkedBody;
    var m := JudgedBody(b, v);
    SignedLoops.VerdictStandsExactly(body, m);
    if forall b' :: b <= b' ==> Judges(b', v) {
      forall body' | body <= body' ensures ChunkLoops.Measures(body', m) {
        var b' := b + body'[|body|..];
        ChunkedBodyGrows(b, b');
        assert b'[|b|..] == body'[|body|..] && ChunkedBody(b') == body';
        var m' := JudgedBody(b', v);
        JudgedOnce(m, m', start);
      }
    }
    if forall body' :: body <= body' ==> ChunkLoops.Measures(body', m) {
      forall b' | b <= b' ensures Judges(b', v) {
        ChunkedBodyGrows(b, b');
        assert ChunkLoops.Measures(ChunkedBody(b'), m);
      }
    }
  }

  lemma StandsForOthers(b: Bytes, b': Bytes, v: Extracted)
    requires b <= b' && !HasChunkedBody(b) && Judges(b, v) && !v.Incomplete?
    ensures Judges(b', v)
  {
    hide InspectFields;
    HeadIsStable(b, b');
    SeenVerdictIsStable(b, b');
  }

  /** Main result on stability: a message or an error stands whatever arrives next, if and only if no
      turn over a chunked body looks for a terminator at the end of the buffer. */
  lemma VerdictIsStable(b: Bytes, v: Extracted)
    requires Judges(b, v) && !v.Incomplete?
    ensures (forall b' :: b <= b' ==> Judges(b', v)) <==> !ReachesTheEnd(b)
  {
    hide Judges, HasChunkedBody;
    if HasChunkedBody(b) {
      StandsForChunked(b, v);
    } else {
      assert !ReachesTheEnd(b);
      forall b' | b <= b' ensures Judges(b', v) { StandsForOthers(b, b', v); }
    }
  }

  /** The first turn over the chunked body that counts from its end looks `back` bytes from it. */
  ghost predicate LooksBack(buffer: Bytes, back: nat) {
    HasChunkedBody(buffer) && SignedLoops.LooksBack(ChunkedBody(buffer), back)
  }

  /** The same for the guarded verdict on buffers within the limit. A message or a body that is too
      large stands if and only if no turn looks at the end, or there is no room for another byte. A
      malformed one stands if no turn does, and does not if the limit has room for what the first one
      looks back. */
  lemma ExtractIsStable(b: Bytes, v: Extracted)
    requires |b| <= MAX_REQUEST_BYTES && Extracts(b, v) && !v.Incomplete?
    ensures !ReachesTheEnd(b) ==> StandsWithinTheLimit(b, v)
    ensures v != Failed(Malformed) ==>
              (StandsWithinTheLimit(b, v) <==> !ReachesTheEnd(b) || |b| == MAX_REQUEST_BYTES)
    ensures forall back: nat :: LooksBack(b, back) && |b| + back <= MAX_REQUEST_BYTES ==> !StandsWithinTheLimit(b, v)
  {
    hide Judges, HasChunkedBody, ReachesTheEnd, SignedLoops.LooksBack;
    VerdictIsStable(b, v);
    if ReachesTheEnd(b) && v != Failed(Malformed) && |b| < MAX_REQUEST_BYTES {
      OneByteMakesItMalformed(b, v);
      assert b <= b + ['x'];
    }
    forall back: nat | LooksBack(b, back) && |b| + back <= MAX_REQUEST_BYTES ensures !StandsWithinTheLimit(b, v) {
      PaddingMakesItIncomplete(b, v, back);
      assert b <= b + SignedLoops.Padding(back);
    }
    if |b| == MAX_REQUEST_BYTES {
      forall b' | b <= b' && |b'| <= MAX_REQUEST_BYTES ensures Extracts(b', v) { assert b' == b; }
    }
  }

  ghost predicate StandsWithinTheLimit(b: Bytes, v: Extracted) {
    forall b' :: b <= b' && |b'| <= MAX_REQUEST_BYTES ==> Extracts(b', v)
  }

  lemma OneByteMakesItMalformed(b: Bytes, v: Extracted)
    requires Judges(b, v) && !v.Incomplete? && v != Failed(Malformed) && ReachesTheEnd(b)
    ensures !Judges(b + ['x'], v)
  {
    var start, body := HeadOf(b).headerEnd + 4, ChunkedBody(b);
    hide HeadOf, ChunkLoops.Measures, SignedLoops.ReachesTheEnd, HasChunkedBody, ChunkedBody;
    var m := JudgedBody(b, v);
    var b' := b + ['x'];
    ChunkedBodyGrows(b, b');
    assert b'[|b|..] == ['x'];
    SignedLoops.OneByteIsBad(body, m, 'x');
    if Judges(b', v) {
      var m' := JudgedBody(b', v);
      ChunkLoops.MeasuresOnce(ChunkedBody(b'), m', Chunked.BadChunk);
    }
  }

  lemma PaddingMakesItIncomplete(b: Bytes, v: Extracted, back: nat)
    requires Judges(b, v) && !v.Incomplete? && LooksBack(b, back)
    ensures back >= 3 && |SignedLoops.Padding(back)| == back && !Judges(b + SignedLoops.Padding(back), v)
  {
    var start, body := HeadOf(b).headerEnd + 4, ChunkedBody(b);
    SignedLoops.PaddingNeedsMore(body, back);
    assert |SignedLoops.Padding(back)| == back;
    hide HeadOf, ChunkLoops.Measures, SignedLoops.LooksBack, HasChunkedBody, ChunkedBody, SignedLoops.Padding;
    var b' := b + SignedLoops.Padding(back);
    ChunkedBodyGrows(b, b');
    assert b'[|b|..] == SignedLoops.Padding(back);
    if Judges(b', v) {
      var m' := JudgedBody(b', v);
      ChunkLoops.MeasuresOnce(ChunkedBody(b'), m', Chunked.NeedMore);
    }
  }

  /** Complete messages are a prefix-free code: every proper prefix of one is "incomplete". */
  lemma MessagesArePrefixFree(m: Bytes, p: Bytes)
    requires Verdict(m) == Message(|m|) && p < m
    ensures Verdict(p) == Incomplete
  {
    hide HeadOf, ExtractAfter;
    if !Verdict(p).Incomplete? {
      SeenVerdictIsStable(p, m);
      MessageFits(p);
    }
  }

  /** The bytes of a message are themselves framed as that message, with nothing left over. */
  lemma MessageAlone(b: Bytes)
    requires Verdict(b).Message?
    ensures Verdict(b).length <= |b| && Verdict(b[..Verdict(b).length]) == Verdict(b)
  {
    hide InspectFields, Chunked.FrameChunks, Chunked.DecodeChunks;
    MessageFits(b);
    HeadInfoIsInBuffer(b);
    var n, head := Verdict(b).length, HeadOf(b);
    var start, m := head.headerEnd + 4, b[..n];
    if head.chunked { Chunked.FrameChunksFits(b[start..], 0, 0); }
    assert m <= b;
    FindShrinks(m, b, SEPARATOR, 0);
    assert m[..head.headerEnd] == b[..head.headerEnd];
    if head.chunked {
      Chunked.FramerAndDecoderAgree(b[start..], n - start);
      assert b[start..][..n - start] == m[start..];
      Chunked.FramerAndDecoderAgree(m[start..], n - start);
      assert m[start..][..n - start] == m[start..];
    }
  }

  /** A reader that is told "incomplete" while no chunked head is in sight holds little, so one
      more `recv` cannot push it over the whole-buffer limit. */
  lemma WaitingBufferIsSmall(b: Bytes)
    requires Verdict(b).Incomplete?
    requires HeadOf(b).HeadInfo? ==> !HeadOf(b).chunked
    ensures |b| < MAX_HEADER_BYTES + Chunked.MAX_BODY_BYTES
  {}
}

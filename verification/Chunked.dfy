/** The chunked transfer coding (section 7.1 of RFC 9112): what the framer measures in a growing
    buffer and what the decoder reads, as recursive functions, the encoder that prints it, and the
    grammar the three are proved to agree with. The loops that compute the functions are in
    `ChunkLoops`. */
module Chunked {
  import opened Wrappers
  import opened ByteStrings

  const MAX_BODY_BYTES := 524_288

  // ----- the chunk-size line -----

  datatype SizeToken = NoToken | BadToken | Size(n: int)

  /** Size line up to a `;` extension, stripped, read in base 16. */
  function SizeOf(line: Bytes): SizeToken {
    var token := Strip(Before(line, ';'), ByteSpace);
    if token == [] then NoToken
    else
      match ParseInt(token, 16)
      case None => BadToken
      case Some(n) => Size(n)
  }

  // ----- the framer: how long is the chunked body at the front of the buffer? -----

  /** `SignedSize` marks a buffer in which a size with a minus sign is reached. There the function
      stops, while the loop of the source goes on; see `ChunkLoops`. */
  datatype FrameVerdict =
    | NeedMore
    | Complete(length: nat)
    | BadChunk
    | TooLarge
    | SignedSize

  function FrameTrailers(b: Bytes, position: nat): FrameVerdict
    decreases |b| - position
  {
    var end := Find(b, CRLF, position);
    if end < 0 then NeedMore
    else if end == position then Complete(end + 2)
    else if ':' !in b[position..end] then BadChunk
    else FrameTrailers(b, end + 2)
  }

  function FrameChunks(b: Bytes, position: nat, decodedSize: int): FrameVerdict
    decreases |b| - position
  {
    var end := Find(b, CRLF, position);
    if end < 0 then NeedMore
    else
      match SizeOf(b[position..end])
      case NoToken => BadChunk
      case BadToken => BadChunk
      case Size(n) =>
        var data := end + 2;
        if n < 0 then SignedSize
        else if n == 0 then FrameTrailers(b, data)
        else if |b| < data + n + 2 then NeedMore
        else if decodedSize + n > MAX_BODY_BYTES then TooLarge
        else if !At(b, CRLF, data + n) then BadChunk
        else FrameChunks(b, data + n + 2, decodedSize + n)
  }

  /** What `_chunked_body_complete_length` answers on a buffer without a minus sign. */
  function Frame(b: Bytes): FrameVerdict { FrameChunks(b, 0, 0) }

  // ----- the decoder: what data does a framed body carry? -----

  datatype DecodeError =
    | IncompleteSizeLine | MissingSize | MalformedSize | IncompleteTrailers | MalformedTrailer
    | TrailingBytes | IncompleteData | DecodedTooLarge | MissingTerminator | MinusSize

  datatype Decoded = Data(body: Bytes) | Undecodable(error: DecodeError)

  function DecodeTrailers(b: Bytes, position: nat, decoded: Bytes): Decoded
    decreases |b| - position
  {
    var end := Find(b, CRLF, position);
    if end < 0 then Undecodable(IncompleteTrailers)
    else if end == position then
      if end + 2 != |b| then Undecodable(TrailingBytes) else Data(decoded)
    else if ':' !in b[position..end] then Undecodable(MalformedTrailer)
    else DecodeTrailers(b, end + 2, decoded)
  }

  function DecodeChunks(b: Bytes, position: nat, decoded: Bytes): Decoded
    decreases |b| - position
  {
    var end := Find(b, CRLF, position);
    if end < 0 then Undecodable(IncompleteSizeLine)
    else
      match SizeOf(b[position..end])
      case NoToken => Undecodable(MissingSize)
      case BadToken => Undecodable(MalformedSize)
      case Size(n) =>
        var data := end + 2;
        if n < 0 then Undecodable(MinusSize)
        else if n == 0 then DecodeTrailers(b, data, decoded)
        else if data + n + 2 > |b| then Undecodable(IncompleteData)
        else if |decoded| + n > MAX_BODY_BYTES then Undecodable(DecodedTooLarge)
        else if !At(b, CRLF, data + n) then Undecodable(MissingTerminator)
        else DecodeChunks(b, data + n + 2, decoded + b[data..data + n])
  }

  /** What `_decode_chunked_body` answers on a body without a minus sign. */
  function Decode(b: Bytes): Decoded { DecodeChunks(b, 0, []) }

  // ----- the grammar: chunks, last-chunk line, trailer lines, empty line -----

  datatype Trailers = NoTrailer | Trailer(line: Bytes, rest: Trailers)

  datatype ChunkedBody =
    | Last(line: Bytes, trailers: Trailers)
    | Chunk(line: Bytes, data: Bytes, rest: ChunkedBody)

  predicate WellFormedTrailers(t: Trailers) {
    t.Trailer? ==> t.line != [] && IsLine(t.line) && ':' in t.line && WellFormedTrailers(t.rest)
  }

  predicate WellFormed(p: ChunkedBody) {
    && IsLine(p.line)
    && match p
       case Last(line, trailers) => SizeOf(line) == Size(0) && WellFormedTrailers(trailers)
       case Chunk(line, data, rest) => data != [] && SizeOf(line) == Size(|data|) && WellFormed(rest)
  }

  function PrintTrailers(t: Trailers): Bytes {
    match t
    case NoTrailer => CRLF
    case Trailer(line, rest) => line + (CRLF + PrintTrailers(rest))
  }

  function Print(p: ChunkedBody): Bytes {
    match p
    case Last(line, trailers) => line + (CRLF + PrintTrailers(trailers))
    case Chunk(line, data, rest) => line + (CRLF + (data + (CRLF + Print(rest))))
  }

  function Content(p: ChunkedBody): Bytes {
    match p
    case Last(_, _) => []
    case Chunk(_, data, rest) => data + Content(rest)
  }

  // ----- every printed body is framed and decoded -----

  lemma {:induction false} PrintedTrailers(b: Bytes, position: nat, t: Trailers, decoded: Bytes)
    requires WellFormedTrailers(t) && At(b, PrintTrailers(t), position)
    ensures FrameTrailers(b, position) == Complete(position + |PrintTrailers(t)|)
    ensures DecodeTrailers(b, position, decoded)
            == if |b| == position + |PrintTrailers(t)| then Data(decoded) else Undecodable(TrailingBytes)
    decreases t
  {
    hide At;
    match t
    case NoTrailer =>
      FirstIsFound(b, CRLF, position, position);
    case Trailer(line, rest) =>
      AtConcat(b, line, CRLF + PrintTrailers(rest), position);
      AtConcat(b, CRLF, PrintTrailers(rest), position + |line|);
      LineIsFound(b, line, position);
      PrintedTrailers(b, position + |line| + 2, rest, decoded);
  }

  /** The framer accepts every sentence of the grammar whose content fits, whatever follows it. */
  lemma {:induction false} PrintedFrame(b: Bytes, position: nat, p: ChunkedBody, decodedSize: int)
    requires WellFormed(p) && At(b, Print(p), position)
    requires decodedSize + |Content(p)| <= MAX_BODY_BYTES
    ensures FrameChunks(b, position, decodedSize) == Complete(position + |Print(p)|)
    decreases p
  {
    hide SizeOf, At, Find;
    match p
    case Last(line, trailers) =>
      AtConcat(b, line, CRLF + PrintTrailers(trailers), position);
      AtConcat(b, CRLF, PrintTrailers(trailers), position + |line|);
      LineIsFound(b, line, position);
      PrintedTrailers(b, position + |line| + 2, trailers, []);
    case Chunk(line, data, rest) =>
      ChunkStands(b, position, line, data, rest);
      PrintedFrame(b, position + |line| + 2 + |data| + 2, rest, decodedSize + |data|);
  }

  /** Where a chunk is printed, its line, its data and its end are found. */
  lemma ChunkStands(b: Bytes, position: nat, line: Bytes, data: Bytes, rest: ChunkedBody)
    requires IsLine(line) && At(b, line + (CRLF + (data + (CRLF + Print(rest)))), position)
    ensures Find(b, CRLF, position) == position + |line| && b[position..position + |line|] == line
    ensures var start := position + |line| + 2;
            && start + |data| + 2 <= |b| && b[start..start + |data|] == data
            && At(b, CRLF, start + |data|) && At(b, Print(rest), start + |data| + 2)
  {
    hide At, Find;
    AtConcat(b, line, CRLF + (data + (CRLF + Print(rest))), position);
    AtConcat(b, CRLF, data + (CRLF + Print(rest)), position + |line|);
    LineIsFound(b, line, position);
    var start := position + |line| + 2;
    AtConcat(b, data, CRLF + Print(rest), start);
    AtConcat(b, CRLF, Print(rest), start + |data|);
    AtIsSlice(b, data, start);
    AtIsSlice(b, CRLF, start + |data|);
  }

  /** And the decoder returns its content, unless something follows. */
  lemma {:induction false} PrintedChunks(b: Bytes, position: nat, p: ChunkedBody, decoded: Bytes)
    requires WellFormed(p) && At(b, Print(p), position)
    requires |decoded| + |Content(p)| <= MAX_BODY_BYTES
    ensures DecodeChunks(b, position, decoded)
            == if |b| == position + |Print(p)| then Data(decoded + Content(p)) else Undecodable(TrailingBytes)
    decreases p
  {
    hide SizeOf, At, Find;
    match p
    case Last(line, trailers) =>
      AtConcat(b, line, CRLF + PrintTrailers(trailers), position);
      AtConcat(b, CRLF, PrintTrailers(trailers), position + |line|);
      LineIsFound(b, line, position);
      PrintedTrailers(b, position + |line| + 2, trailers, decoded);
      assert decoded + Content(p) == decoded;
    case Chunk(line, data, rest) =>
      ChunkStands(b, position, line, data, rest);
      PrintedChunks(b, position + |line| + 2 + |data| + 2, rest, decoded + data);
      assert decoded + data + Content(rest) == decoded + Content(p);
  }

  /** The framer without a limit on the body: it starts from a count no body can bring up to one. */
  function FrameUnlimited(b: Bytes): FrameVerdict { FrameChunks(b, 0, -|b|) }

  lemma {:induction false} ContentIsShort(p: ChunkedBody)
    ensures |Content(p)| <= |Print(p)|
    decreases p
  {
    if p.Chunk? { ContentIsShort(p.rest); }
  }

  // ----- everything framed is a printed body -----

  lemma {:induction false} FramedTrailers(b: Bytes, position: nat) returns (t: Trailers)
    requires position <= |b| && FrameTrailers(b, position).Complete?
    ensures WellFormedTrailers(t)
    ensures FrameTrailers(b, position).length == position + |PrintTrailers(t)|
    ensures At(b, PrintTrailers(t), position)
    decreases |b| - position
  {
    hide At;
    var end := Find(b, CRLF, position);
    FoundIsLine(b, position);
    if end == position {
      t := NoTrailer;
    } else {
      var line := b[position..end];
      var rest := FramedTrailers(b, end + 2);
      t := Trailer(line, rest);
      AtConcat(b, CRLF, PrintTrailers(rest), end);
      AtConcat(b, line, CRLF + PrintTrailers(rest), position);
    }
  }

  lemma {:induction false} FramedChunks(b: Bytes, position: nat, decodedSize: nat) returns (p: ChunkedBody)
    requires position <= |b| && FrameChunks(b, position, decodedSize).Complete?
    requires decodedSize <= MAX_BODY_BYTES
    ensures WellFormed(p) && decodedSize + |Content(p)| <= MAX_BODY_BYTES
    ensures FrameChunks(b, position, decodedSize).length == position + |Print(p)|
    ensures At(b, Print(p), position)
    decreases |b| - position
  {
    hide SizeOf, At, Find;
    var end := Find(b, CRLF, position);
    FoundIsLine(b, position);
    var line := b[position..end];
    var n, start := SizeOf(line).n, end + 2;
    if n == 0 {
      var trailers := FramedTrailers(b, start);
      p := Last(line, trailers);
      AtConcat(b, CRLF, PrintTrailers(trailers), end);
      AtConcat(b, line, CRLF + PrintTrailers(trailers), position);
    } else {
      var rest := FramedChunks(b, start + n + 2, decodedSize + n);
      var data := b[start..start + n];
      p := Chunk(line, data, rest);
      AtIsSlice(b, data, start);
      AtConcat(b, CRLF, Print(rest), start + n);
      AtConcat(b, data, CRLF + Print(rest), start);
      AtConcat(b, CRLF, data + (CRLF + Print(rest)), end);
      AtConcat(b, line, CRLF + (data + (CRLF + Print(rest))), position);
    }
  }

  /** The decoder succeeds only where the framer measures exactly the whole input. */
  lemma {:induction false} DecodedTrailersFrame(b: Bytes, position: nat, decoded: Bytes)
    requires position <= |b| && DecodeTrailers(b, position, decoded).Data?
    ensures FrameTrailers(b, position) == Complete(|b|)
    decreases |b| - position
  {
    var end := Find(b, CRLF, position);
    if end != position { DecodedTrailersFrame(b, end + 2, decoded); }
  }

  lemma {:induction false} DecodedChunksFrame(b: Bytes, position: nat, decoded: Bytes)
    requires position <= |b| && DecodeChunks(b, position, decoded).Data?
    ensures FrameChunks(b, position, |decoded|) == Complete(|b|)
    decreases |b| - position
  {
    hide SizeOf, At, Find, FrameTrailers, DecodeTrailers;
    var end := Find(b, CRLF, position);
    var n, data := SizeOf(b[position..end]).n, end + 2;
    if n == 0 {
      DecodedTrailersFrame(b, data, decoded);
    } else {
      DecodedChunksFrame(b, data + n + 2, decoded + b[data..data + n]);
    }
  }

  // ----- main results -----

  /** The framer measures exactly the sentences of the grammar whose content fits the limit. */
  lemma FramerIsTheGrammar(b: Bytes, n: nat)
    requires n <= |b|
    ensures Frame(b) == Complete(n)
            <==> exists p :: WellFormed(p) && |Content(p)| <= MAX_BODY_BYTES && Print(p) == b[..n]
  {
    hide WellFormed, FrameChunks;
    if Frame(b) == Complete(n) {
      var p := FramedChunks(b, 0, 0);
      assert Print(p) == b[0..n] == b[..n];
    }
    if p :| WellFormed(p) && |Content(p)| <= MAX_BODY_BYTES && Print(p) == b[..n] {
      assert b[0..n] == b[..n];
      PrintedFrame(b, 0, p, 0);
    }
  }

  /** The decoder succeeds exactly on the sentences of the grammar, and returns their content. */
  lemma DecoderIsTheGrammar(b: Bytes, body: Bytes)
    ensures Decode(b) == Data(body)
            <==> exists p :: WellFormed(p) && Content(p) == body && |body| <= MAX_BODY_BYTES && Print(p) == b
  {
    hide WellFormed, FrameChunks, DecodeChunks;
    assert b[0..|b|] == b;
    if Decode(b) == Data(body) {
      DecodedChunksFrame(b, 0, []);
      var p := FramedChunks(b, 0, 0);
      PrintedChunks(b, 0, p, []);
      assert [] + Content(p) == Content(p);
    }
    if p :| WellFormed(p) && Content(p) == body && |body| <= MAX_BODY_BYTES && Print(p) == b {
      PrintedChunks(b, 0, p, []);
      assert [] + Content(p) == Content(p);
    }
  }

  /** Framer and decoder, two separate loops, accept the same bodies. */
  lemma FramerAndDecoderAgree(b: Bytes, n: nat)
    requires n <= |b|
    ensures Frame(b) == Complete(n) <==> Decode(b[..n]).Data?
    ensures Frame(b) == Complete(n) ==> |Decode(b[..n]).body| <= MAX_BODY_BYTES
  {
    hide Frame, Decode;
    FramerIsTheGrammar(b, n);
    if Frame(b) == Complete(n) {
      var p :| WellFormed(p) && |Content(p)| <= MAX_BODY_BYTES && Print(p) == b[..n];
      DecoderIsTheGrammar(b[..n], Content(p));
      assert Decode(b[..n]) == Data(Content(p));
    }
    assert Frame(b) == Complete(n) ==> Decode(b[..n]).Data?;
    assert Frame(b) == Complete(n) ==> |Decode(b[..n]).body| <= MAX_BODY_BYTES;
    if Decode(b[..n]).Data? {
      var body := Decode(b[..n]).body;
      DecoderIsTheGrammar(b[..n], body);
      var p :| WellFormed(p) && Content(p) == body && |body| <= MAX_BODY_BYTES && Print(p) == b[..n];
      assert Frame(b) == Complete(n);
    }
  }

  // ----- verdicts do not change when the buffer grows -----

  lemma {:induction false} FrameTrailersStable(b: Bytes, b': Bytes, position: nat)
    requires b <= b' && position <= |b| && !FrameTrailers(b, position).NeedMore?
    ensures FrameTrailers(b', position) == FrameTrailers(b, position)
    decreases |b| - position
  {
    FindExtends(b, b', CRLF, position);
    var end := Find(b, CRLF, position);
    assert b'[position..end] == b[position..end];
    if end != position && ':' in b[position..end] { FrameTrailersStable(b, b', end + 2); }
  }

  lemma {:induction false} FrameChunksStable(b: Bytes, b': Bytes, position: nat, decodedSize: int)
    requires b <= b' && position <= |b| && !FrameChunks(b, position, decodedSize).NeedMore?
    ensures FrameChunks(b', position, decodedSize) == FrameChunks(b, position, decodedSize)
    decreases |b| - position
  {
    hide SizeOf, At, Find;
    FindExtends(b, b', CRLF, position);
    var end, data := Find(b, CRLF, position), Find(b, CRLF, position) + 2;
    assert b'[position..end] == b[position..end];
    match SizeOf(b[position..end])
    case NoToken =>
    case BadToken =>
    case Size(n) =>
      if n == 0 {
        FrameTrailersStable(b, b', data);
      } else if n > 0 {
        AtExtends(b, b', CRLF, data + n);
        if decodedSize + n <= MAX_BODY_BYTES && At(b, CRLF, data + n) {
          FrameChunksStable(b, b', data + n + 2, decodedSize + n);
        }
      }
  }

  lemma {:induction false} FrameTrailersFits(b: Bytes, position: nat)
    requires position <= |b| && FrameTrailers(b, position).Complete?
    ensures position < FrameTrailers(b, position).length <= |b|
    decreases |b| - position
  {
    var end := Find(b, CRLF, position);
    if end != position { FrameTrailersFits(b, end + 2); }
  }

  lemma {:induction false} FrameChunksFits(b: Bytes, position: nat, decodedSize: int)
    requires position <= |b| && FrameChunks(b, position, decodedSize).Complete?
    ensures position < FrameChunks(b, position, decodedSize).length <= |b|
    decreases |b| - position
  {
    hide SizeOf, At, Find;
    var end, data := Find(b, CRLF, position), Find(b, CRLF, position) + 2;
    var n := SizeOf(b[position..end]).n;
    if n == 0 { FrameTrailersFits(b, data); } else { FrameChunksFits(b, data + n + 2, decodedSize + n); }
  }

  // ----- the encoder -----

  /** The pieces `iter_chunked_encoded` yields. */
  function EncodePieces(chunks: seq<Bytes>): seq<Bytes> {
    if chunks == [] then ["0\r\n\r\n"]
    else [Hex(|chunks[0]|) + CRLF, chunks[0], CRLF] + EncodePieces(chunks[1..])
  }

  function Encode(chunks: seq<Bytes>): Bytes { Flatten(EncodePieces(chunks)) }

  lemma HexLine(n: nat)
    ensures IsLine(Hex(n)) && SizeOf(Hex(n)) == Size(n)
  {
    var s := Hex(n);
    NumeralIsNumeral(n, 16);
    ParseIntOfHex(n);
    FindIsFirst(s, CRLF, 0);
    AtCrlf(s, Find(s, CRLF, 0));
    assert IndexOf(s, ';') == |s|;
    assert s[..|s|] == s;
    assert !ByteSpace(s[0]) && !ByteSpace(s[|s| - 1]);
  }

  /** The grammar sentence the encoder writes for a list of chunks. */
  function Sentence(chunks: seq<Bytes>): ChunkedBody {
    if chunks == [] then Last("0", NoTrailer)
    else Chunk(Hex(|chunks[0]|), chunks[0], Sentence(chunks[1..]))
  }

  lemma {:induction false} SentenceIsEncoded(chunks: seq<Bytes>)
    requires AllFilled(chunks)
    ensures WellFormed(Sentence(chunks))
    ensures Print(Sentence(chunks)) == Encode(chunks)
    ensures Content(Sentence(chunks)) == Flatten(chunks)
    decreases |chunks|
  {
    hide SizeOf;
    if chunks == [] {
      HexLine(0);
      assert Hex(0) == "0";
      assert Flatten(["0\r\n\r\n"]) == "0\r\n\r\n" + [];
    } else {
      var c, rest := chunks[0], chunks[1..];
      HexLine(|c|);
      SentenceIsEncoded(rest);
      FlattenThree(Hex(|c|) + CRLF, c, CRLF, EncodePieces(rest));
      assert (Hex(|c|) + CRLF) + (c + (CRLF + Encode(rest))) == Hex(|c|) + (CRLF + (c + (CRLF + Encode(rest))));
    }
  }

  lemma FlattenThree(x: Bytes, y: Bytes, z: Bytes, more: seq<Bytes>)
    ensures Flatten([x, y, z] + more) == x + (y + (z + Flatten(more)))
  {
    var all := [x, y, z] + more;
    assert all[1..] == [y, z] + more && all[1..][1..] == [z] + more && all[1..][1..][1..] == more;
    assert Flatten(all[1..][1..]) == z + Flatten(more);
    assert Flatten(all[1..]) == y + Flatten(all[1..][1..]);
  }

  predicate AllFilled(chunks: seq<Bytes>) { forall i :: 0 <= i < |chunks| ==> chunks[i] != [] }

  /** The chunks before the first empty one. */
  function UntilEmpty(chunks: seq<Bytes>): (k: nat)
    ensures k <= |chunks| && AllFilled(chunks[..k])
    ensures k < |chunks| ==> chunks[k] == []
    ensures k == |chunks| <==> AllFilled(chunks)
  {
    if chunks == [] || chunks[0] == [] then 0
    else
      var k := 1 + UntilEmpty(chunks[1..]);
      assert forall i :: 0 < i < k ==> chunks[i] == chunks[1..][..k - 1][i - 1];
      k
  }

  const TERMINATOR: Bytes := "0\r\n\r\n"

  /** The print without the terminator. */
  function Printed(chunks: seq<Bytes>): Bytes {
    if chunks == [] then [] else Hex(|chunks[0]|) + CRLF + (chunks[0] + (CRLF + Printed(chunks[1..])))
  }

  lemma Regroup(x: Bytes, y: Bytes, z: Bytes, u: Bytes, v: Bytes)
    ensures x + (y + (z + (u + v))) == x + (y + (z + u)) + v
  {}

  lemma {:induction false} EncodeIsPrinted(chunks: seq<Bytes>)
    ensures Encode(chunks) == Printed(chunks) + TERMINATOR
  {
    hide Numeral;
    if chunks == [] {
      assert Flatten([TERMINATOR]) == TERMINATOR + [];
    } else {
      var c := chunks[0];
      EncodeIsPrinted(chunks[1..]);
      FlattenThree(Hex(|c|) + CRLF, c, CRLF, EncodePieces(chunks[1..]));
      Regroup(Hex(|c|) + CRLF, c, CRLF, Printed(chunks[1..]), TERMINATOR);
    }
  }

  lemma {:induction false} PrintedConcat(a: seq<Bytes>, b: seq<Bytes>)
    ensures Printed(a + b) == Printed(a) + Printed(b)
    decreases |a|
  {
    hide Numeral;
    if a == [] {
      assert a + b == b;
    } else {
      assert (a + b)[0] == a[0] && (a + b)[1..] == a[1..] + b;
      PrintedConcat(a[1..], b);
      Regroup(Hex(|a[0]|) + CRLF, a[0], CRLF, Printed(a[1..]), Printed(b));
    }
  }

  lemma EmptyChunkPrints(b: seq<Bytes>)
    ensures Printed([[]] + b) == TERMINATOR + Printed(b)
  {
    var all := [[]] + b;
    assert all[0] == [] && all[1..] == b && Hex(0) == "0";
    hide Numeral;
    assert Printed(all) == "0" + CRLF + ([] + (CRLF + Printed(b)));
  }

  /** An empty chunk prints the terminator, so the print goes on behind a complete body. */
  lemma EmptyChunkTerminates(a: seq<Bytes>, b: seq<Bytes>)
    ensures Encode(a + ([[]] + b)) == Encode(a) + Encode(b) && Encode(b) != []
  {
    hide Numeral, Printed, Encode;
    PrintedConcat(a, [[]] + b);
    EncodeIsPrinted(a);
    EncodeIsPrinted(b);
    EncodeIsPrinted(a + ([[]] + b));
    EmptyChunkPrints(b);
  }

  lemma FlattenPrefix(chunks: seq<Bytes>, k: nat)
    requires k <= |chunks|
    ensures |Flatten(chunks[..k])| <= |Flatten(chunks)|
  {
    FlattenAppend(chunks[..k], chunks[k..]);
    assert chunks == chunks[..k] + chunks[k..];
  }

  /** What the encoder prints, seen by the framer and the decoder, whatever bytes the chunks hold
      and whatever follows: both take it to end at the first empty chunk. */
  lemma PrintEndsAtFirstEmpty(chunks: seq<Bytes>, rest: Bytes)
    requires |Flatten(chunks)| <= MAX_BODY_BYTES
    ensures var head := chunks[..UntilEmpty(chunks)];
            && Frame(Encode(chunks) + rest) == Complete(|Encode(head)|)
            && Decode(Encode(chunks)) == if AllFilled(chunks) then Data(Flatten(chunks)) else Undecodable(TrailingBytes)
  {
    hide Frame, Decode, Encode, Flatten, UntilEmpty, AllFilled;
    var k := UntilEmpty(chunks);
    var head := chunks[..k];
    FlattenPrefix(chunks, k);
    if k < |chunks| {
      EmptyChunkTerminates(head, chunks[k + 1..]);
      assert chunks == head + ([[]] + chunks[k + 1..]);
      FilledPrint(head, Encode(chunks[k + 1..]));
      FilledPrint(head, Encode(chunks[k + 1..]) + rest);
      assert Encode(chunks) + rest == Encode(head) + (Encode(chunks[k + 1..]) + rest);
    } else {
      assert head == chunks && Encode(chunks) + [] == Encode(chunks);
      FilledPrint(chunks, rest);
      FilledPrint(chunks, []);
    }
  }

  lemma FilledPrint(chunks: seq<Bytes>, rest: Bytes)
    requires AllFilled(chunks) && |Flatten(chunks)| <= MAX_BODY_BYTES
    ensures Frame(Encode(chunks) + rest) == Complete(|Encode(chunks)|)
    ensures Decode(Encode(chunks) + rest) == if rest == [] then Data(Flatten(chunks)) else Undecodable(TrailingBytes)
  {
    hide WellFormed, FrameChunks, DecodeChunks, Encode;
    SentenceIsEncoded(chunks);
    var p, e := Sentence(chunks), Encode(chunks);
    assert (e + rest)[0..|e|] == e;
    PrintedChunks(e + rest, 0, p, []);
    PrintedFrame(e + rest, 0, p, 0);
    assert [] + Content(p) == Content(p);
  }

  /** Without a limit, the framer measures the print of any list of filled chunks. */
  lemma FilledPrintUnlimited(chunks: seq<Bytes>, rest: Bytes)
    requires AllFilled(chunks)
    ensures FrameUnlimited(Encode(chunks) + rest) == Complete(|Encode(chunks)|)
  {
    hide WellFormed, FrameChunks, Encode, Content, Print;
    SentenceIsEncoded(chunks);
    var p, e := Sentence(chunks), Encode(chunks);
    assert (e + rest)[0..|e|] == e;
    ContentIsShort(p);
    PrintedFrame(e + rest, 0, p, -|e + rest|);
  }

  /** Round trip, for every list of chunks: the decoder reads back the joined chunks if and only if
      none is empty and they fit the limit. */
  lemma RoundTrip(chunks: seq<Bytes>)
    ensures Decode(Encode(chunks)) == Data(Flatten(chunks))
            <==> AllFilled(chunks) && |Flatten(chunks)| <= MAX_BODY_BYTES
  {
    hide Decode, Encode, Flatten;
    if |Flatten(chunks)| <= MAX_BODY_BYTES {
      PrintEndsAtFirstEmpty(chunks, []);
    } else if Decode(Encode(chunks)) == Data(Flatten(chunks)) {
      DecoderIsTheGrammar(Encode(chunks), Flatten(chunks));
    }
  }

  /** The decoded body does not depend on how the sender cut it into chunks. */
  lemma ChunkingIsInvisible(chunks: seq<Bytes>, chunks': seq<Bytes>)
    requires AllFilled(chunks) && AllFilled(chunks')
    requires Flatten(chunks) == Flatten(chunks') && |Flatten(chunks)| <= MAX_BODY_BYTES
    ensures Decode(Encode(chunks)) == Decode(Encode(chunks'))
  {
    RoundTrip(chunks);
    RoundTrip(chunks');
  }
}

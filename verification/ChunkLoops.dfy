/** The two loops over a chunked body as they are written, with Python's slices and indices, turn by
    turn. A size without a minus sign moves both loops forward, and they end with what `Frame` and
    `Decode` say. A size with a minus sign moves them back: they may then accept other bodies, change
    their verdict when the buffer grows, or never end. */
module ChunkLoops {
  import opened Wrappers
  import opened ByteStrings
  import opened Chunked

  /** One turn of a loop goes on from a new state or ends with an answer. */
  datatype Turned<S, V> = GoesOn(state: S) | Ends(answer: V)

  // ----- the framer -----

  datatype FrameState = FrameState(position: int, decodedSize: int)

  const FRAME_START := FrameState(0, 0)

  /** One turn of `_chunked_body_complete_length`. */
  function FrameTurn(b: Bytes, s: FrameState): Turned<FrameState, FrameVerdict> {
    var end := FindFrom(b, CRLF, s.position);
    if end == -1 then Ends(NeedMore)
    else
      match SizeOf(Slice(b, s.position, end))
      case NoToken => Ends(BadChunk)
      case BadToken => Ends(BadChunk)
      case Size(n) =>
        var data := end + 2;
        if n == 0 then Ends(FrameTrailers(b, data))
        else if |b| < data + n + 2 then Ends(NeedMore)
        else if s.decodedSize + n > MAX_BODY_BYTES then Ends(TooLarge)
        else if Slice(b, data + n, data + n + 2) != CRLF then Ends(BadChunk)
        else GoesOn(FrameState(data + n + 2, s.decodedSize + n))
  }

  function FrameLoop(b: Bytes, s: FrameState, turns: nat): Turned<FrameState, FrameVerdict>
    decreases turns
  {
    if turns == 0 then GoesOn(s)
    else
      match FrameTurn(b, s)
      case Ends(v) => Ends(v)
      case GoesOn(next) => FrameLoop(b, next, turns - 1)
  }

  /** The framer ends on `b` with verdict `v`. */
  ghost predicate Measures(b: Bytes, v: FrameVerdict) {
    exists turns: nat :: FrameLoop(b, FRAME_START, turns) == Ends(v)
  }

  ghost predicate FramerHalts(b: Bytes) { exists v :: Measures(b, v) }

  // ----- the decoder -----

  datatype DecodeState = DecodeState(position: int, decoded: Bytes)

  const DECODE_START := DecodeState(0, [])

  /** One turn of `_decode_chunked_body`. */
  function DecodeTurn(b: Bytes, s: DecodeState): Turned<DecodeState, Decoded> {
    var end := FindFrom(b, CRLF, s.position);
    if end == -1 then Ends(Undecodable(IncompleteSizeLine))
    else
      match SizeOf(Slice(b, s.position, end))
      case NoToken => Ends(Undecodable(MissingSize))
      case BadToken => Ends(Undecodable(MalformedSize))
      case Size(n) =>
        if n == 0 then Ends(DecodeTrailers(b, end + 2, s.decoded)) else TakeData(b, end + 2, n, s.decoded)
  }

  /** The rest of a turn, for a size other than zero. */
  function TakeData(b: Bytes, position: nat, n: int, decoded: Bytes): Turned<DecodeState, Decoded> {
    var chunkEnd := position + n;
    if chunkEnd + 2 > |b| then Ends(Undecodable(IncompleteData))
    else
      var decoded' := decoded + Slice(b, position, chunkEnd);
      if |decoded'| > MAX_BODY_BYTES then Ends(Undecodable(DecodedTooLarge))
      else if Slice(b, chunkEnd, chunkEnd + 2) != CRLF then Ends(Undecodable(MissingTerminator))
      else GoesOn(DecodeState(chunkEnd + 2, decoded'))
  }

  function DecodeLoop(b: Bytes, s: DecodeState, turns: nat): Turned<DecodeState, Decoded>
    decreases turns
  {
    if turns == 0 then GoesOn(s)
    else
      match DecodeTurn(b, s)
      case Ends(v) => Ends(v)
      case GoesOn(next) => DecodeLoop(b, next, turns - 1)
  }

  /** The decoder ends on `b` with answer `r`. */
  ghost predicate Decodes(b: Bytes, r: Decoded) {
    exists turns: nat :: DecodeLoop(b, DECODE_START, turns) == Ends(r)
  }

  ghost predicate DecoderHalts(b: Bytes) { exists r :: Decodes(b, r) }

  // ----- a loop ends with one answer -----

  lemma {:induction false} FrameLoopStays(b: Bytes, s: FrameState, m: nat, n: nat)
    requires m <= n && FrameLoop(b, s, m).Ends?
    ensures FrameLoop(b, s, n) == FrameLoop(b, s, m)
    decreases m
  {
    hide FrameTurn;
    if FrameTurn(b, s).GoesOn? { FrameLoopStays(b, FrameTurn(b, s).state, m - 1, n - 1); }
  }

  lemma {:induction false} DecodeLoopStays(b: Bytes, s: DecodeState, m: nat, n: nat)
    requires m <= n && DecodeLoop(b, s, m).Ends?
    ensures DecodeLoop(b, s, n) == DecodeLoop(b, s, m)
    decreases m
  {
    hide DecodeTurn;
    if DecodeTurn(b, s).GoesOn? { DecodeLoopStays(b, DecodeTurn(b, s).state, m - 1, n - 1); }
  }

  lemma MeasuresOnce(b: Bytes, v: FrameVerdict, w: FrameVerdict)
    requires Measures(b, v) && Measures(b, w)
    ensures v == w
  {
    hide FrameLoop;
    var m: nat :| FrameLoop(b, FRAME_START, m) == Ends(v);
    var n: nat :| FrameLoop(b, FRAME_START, n) == Ends(w);
    if m <= n { FrameLoopStays(b, FRAME_START, m, n); } else { FrameLoopStays(b, FRAME_START, n, m); }
  }

  lemma DecodesOnce(b: Bytes, v: Decoded, w: Decoded)
    requires Decodes(b, v) && Decodes(b, w)
    ensures v == w
  {
    hide DecodeLoop;
    var m: nat :| DecodeLoop(b, DECODE_START, m) == Ends(v);
    var n: nat :| DecodeLoop(b, DECODE_START, n) == Ends(w);
    if m <= n { DecodeLoopStays(b, DECODE_START, m, n); } else { DecodeLoopStays(b, DECODE_START, n, m); }
  }

  // ----- without a minus sign -----

  /** One turn at a place inside the buffer, whose size line has no minus sign. */
  lemma FrameTurnForward(b: Bytes, position: nat, decodedSize: nat)
    requires position <= |b| && !FrameChunks(b, position, decodedSize).SignedSize?
    ensures var t := FrameTurn(b, FrameState(position, decodedSize));
            if t.Ends? then t.answer == FrameChunks(b, position, decodedSize)
            else position < t.state.position <= |b| && t.state.decodedSize >= 0
                 && FrameChunks(b, t.state.position, t.state.decodedSize) == FrameChunks(b, position, decodedSize)
  {
    hide SizeOf, At, Find, Slice, FrameTrailers;
    var end := Find(b, CRLF, position);
    if end >= 0 {
      SliceInside(b, position, end);
      var size := SizeOf(b[position..end]);
      if size.Size? && size.n > 0 { SliceIsCrlf(b, end + 2 + size.n); }
    }
  }

  lemma {:induction false} FrameLoopForward(b: Bytes, position: nat, decodedSize: nat) returns (turns: nat)
    requires position <= |b| && !FrameChunks(b, position, decodedSize).SignedSize?
    ensures FrameLoop(b, FrameState(position, decodedSize), turns) == Ends(FrameChunks(b, position, decodedSize))
    decreases |b| - position
  {
    hide FrameTurn, FrameChunks;
    FrameTurnForward(b, position, decodedSize);
    match FrameTurn(b, FrameState(position, decodedSize))
    case Ends(v) =>
      turns := 1;
    case GoesOn(s) =>
      turns := FrameLoopForward(b, s.position, s.decodedSize);
      turns := turns + 1;
  }

  lemma TakeDataForward(b: Bytes, position: nat, n: nat, decoded: Bytes)
    requires n > 0
    ensures TakeData(b, position, n, decoded)
            == if position + n + 2 > |b| then Ends(Undecodable(IncompleteData))
               else if |decoded| + n > MAX_BODY_BYTES then Ends(Undecodable(DecodedTooLarge))
               else if !At(b, CRLF, position + n) then Ends(Undecodable(MissingTerminator))
               else GoesOn(DecodeState(position + n + 2, decoded + b[position..position + n]))
  {
    hide At, Slice;
    if position + n + 2 <= |b| {
      SliceInside(b, position, position + n);
      SliceIsCrlf(b, position + n);
    }
  }

  lemma DecodeTakesData(b: Bytes, position: nat, decoded: Bytes)
    requires position <= |b| && Find(b, CRLF, position) >= 0
    requires var size := SizeOf(b[position..Find(b, CRLF, position)]); size.Size? && size.n != 0
    ensures var end := Find(b, CRLF, position);
            DecodeTurn(b, DecodeState(position, decoded))
            == TakeData(b, end + 2, SizeOf(b[position..end]).n, decoded)
  {
    hide SizeOf, Find, Slice, TakeData;
    SliceInside(b, position, Find(b, CRLF, position));
  }

  lemma DecodeChunksData(b: Bytes, position: nat, decoded: Bytes, end: nat, n: nat)
    requires position <= end && Find(b, CRLF, position) == end && SizeOf(b[position..end]) == Size(n) && n > 0
    ensures DecodeChunks(b, position, decoded)
            == if end + 2 + n + 2 > |b| then Undecodable(IncompleteData)
               else if |decoded| + n > MAX_BODY_BYTES then Undecodable(DecodedTooLarge)
               else if !At(b, CRLF, end + 2 + n) then Undecodable(MissingTerminator)
               else DecodeChunks(b, end + 2 + n + 2, decoded + b[end + 2..end + 2 + n])
  {
    hide SizeOf, At, Find;
  }

  /** The turn ends where `DecodeChunks` does, or goes on from further ahead. */
  predicate IsForward(b: Bytes, position: nat, decoded: Bytes) {
    var t := DecodeTurn(b, DecodeState(position, decoded));
    if t.Ends? then t.answer == DecodeChunks(b, position, decoded)
    else position < t.state.position <= |b|
         && DecodeChunks(b, t.state.position, t.state.decoded) == DecodeChunks(b, position, decoded)
  }

  lemma DataTurnForward(b: Bytes, position: nat, decoded: Bytes, end: nat, n: nat)
    requires position <= end && Find(b, CRLF, position) == end && SizeOf(b[position..end]) == Size(n) && n > 0
    ensures IsForward(b, position, decoded)
  {
    hide SizeOf, At, Find, Slice, TakeData, DecodeTurn, DecodeChunks;
    DecodeTakesData(b, position, decoded);
    TakeDataForward(b, end + 2, n, decoded);
    DecodeChunksData(b, position, decoded, end, n);
  }

  lemma OtherTurnForward(b: Bytes, position: nat, decoded: Bytes)
    requires position <= |b|
    requires var end := Find(b, CRLF, position);
             end >= 0 ==> var size := SizeOf(b[position..end]); size.Size? ==> size.n == 0
    ensures IsForward(b, position, decoded)
  {
    hide SizeOf, Find, Slice, TakeData, DecodeTrailers;
    if Find(b, CRLF, position) >= 0 { SliceInside(b, position, Find(b, CRLF, position)); }
  }

  lemma MinusIsReached(b: Bytes, position: nat, decoded: Bytes)
    requires position <= |b| && Find(b, CRLF, position) >= 0
    requires var size := SizeOf(b[position..Find(b, CRLF, position)]); size.Size? && size.n < 0
    ensures DecodeChunks(b, position, decoded) == Undecodable(MinusSize)
  {
    hide SizeOf, Find;
  }

  lemma DecodeTurnForward(b: Bytes, position: nat, decoded: Bytes)
    requires position <= |b| && DecodeChunks(b, position, decoded) != Undecodable(MinusSize)
    ensures IsForward(b, position, decoded)
  {
    hide SizeOf, Find, DecodeChunks, IsForward;
    var end := Find(b, CRLF, position);
    if end >= 0 && SizeOf(b[position..end]).Size? && SizeOf(b[position..end]).n != 0 {
      var n := SizeOf(b[position..end]).n;
      if n < 0 {
        MinusIsReached(b, position, decoded);
        assert false;
      } else {
        DataTurnForward(b, position, decoded, end, n);
      }
    } else {
      OtherTurnForward(b, position, decoded);
    }
  }

  lemma {:induction false} DecodeLoopForward(b: Bytes, position: nat, decoded: Bytes) returns (turns: nat)
    requires position <= |b| && DecodeChunks(b, position, decoded) != Undecodable(MinusSize)
    ensures DecodeLoop(b, DecodeState(position, decoded), turns) == Ends(DecodeChunks(b, position, decoded))
    decreases |b| - position
  {
    hide DecodeTurn, DecodeChunks;
    DecodeTurnForward(b, position, decoded);
    match DecodeTurn(b, DecodeState(position, decoded))
    case Ends(r) =>
      turns := 1;
    case GoesOn(s) =>
      turns := DecodeLoopForward(b, s.position, s.decoded);
      turns := turns + 1;
  }

  /** The framer's loop ends, with the answer of `Frame` and no other. */
  lemma FramerEnds(b: Bytes, v: FrameVerdict)
    requires !Frame(b).SignedSize?
    ensures Measures(b, v) <==> v == Frame(b)
  {
    hide FrameLoop, FrameChunks;
    var turns := FrameLoopForward(b, 0, 0);
    assert Measures(b, Frame(b));
    if Measures(b, v) { MeasuresOnce(b, v, Frame(b)); }
  }

  /** The decoder's loop ends, with the answer of `Decode` and no other. */
  lemma DecoderEnds(b: Bytes, r: Decoded)
    requires Decode(b) != Undecodable(MinusSize)
    ensures Decodes(b, r) <==> r == Decode(b)
  {
    hide DecodeLoop, DecodeChunks;
    var turns := DecodeLoopForward(b, 0, []);
    assert Decodes(b, Decode(b));
    if Decodes(b, r) { DecodesOnce(b, r, Decode(b)); }
  }

  // ----- the loops as methods -----

  /** `_chunked_body_complete_length`, wherever its loop ends. */
  method ChunkedBodyCompleteLength(b: Bytes) returns (verdict: FrameVerdict)
    requires FramerHalts(b)
    ensures Measures(b, verdict)
    ensures !Frame(b).SignedSize? ==> verdict == Frame(b)
  {
    hide SizeOf, FindFrom, Slice, Frame, FrameLoop, FrameTurn;
    var position: int, decodedSize: int := 0, 0;
    ghost var v :| Measures(b, v);
    ghost var left: nat :| FrameLoop(b, FRAME_START, left) == Ends(v);
    FramerEndsOnce(b, v);
    while true
      invariant position <= |b|
      invariant FrameLoop(b, FrameState(position, decodedSize), left) == Ends(v)
      decreases left
    {
      FrameLoopTurns(b, FrameState(position, decodedSize), left);
      FrameTurnReads(b, FrameState(position, decodedSize));
      left := left - 1;
      var lineEnd := FindFrom(b, CRLF, position);
      if lineEnd == -1 { return NeedMore; }
      var size := SizeOf(Slice(b, position, lineEnd));
      if size.NoToken? || size.BadToken? { return BadChunk; }
      position := lineEnd + 2;
      if size.n == 0 {
        verdict := SkipTrailers(b, position);
        return;
      }
      if |b| < position + size.n + 2 { return NeedMore; }
      decodedSize := decodedSize + size.n;
      if decodedSize > MAX_BODY_BYTES { return TooLarge; }
      if Slice(b, position + size.n, position + size.n + 2) != CRLF { return BadChunk; }
      position := position + size.n + 2;
    }
  }

  lemma FramerEndsOnce(b: Bytes, v: FrameVerdict)
    requires Measures(b, v)
    ensures !Frame(b).SignedSize? ==> v == Frame(b)
  {
    hide Measures, Frame;
    if !Frame(b).SignedSize? { FramerEnds(b, v); }
  }

  lemma FrameLoopTurns(b: Bytes, s: FrameState, left: nat)
    requires FrameLoop(b, s, left).Ends?
    ensures left > 0
    ensures FrameTurn(b, s).Ends? ==> FrameTurn(b, s) == FrameLoop(b, s, left)
    ensures FrameTurn(b, s).GoesOn? ==> FrameLoop(b, FrameTurn(b, s).state, left - 1) == FrameLoop(b, s, left)
  {
    hide FrameTurn;
  }

  /** A turn, step by step. */
  lemma FrameTurnReads(b: Bytes, s: FrameState)
    ensures var end := FindFrom(b, CRLF, s.position);
            && (end == -1 || 0 <= end <= |b| - 2)
            && FrameTurn(b, s) ==
               if end == -1 then Ends(NeedMore)
               else
                 match SizeOf(Slice(b, s.position, end))
                 case NoToken => Ends(BadChunk)
                 case BadToken => Ends(BadChunk)
                 case Size(n) =>
                   if n == 0 then Ends(FrameTrailers(b, end + 2))
                   else if |b| < end + 2 + n + 2 then Ends(NeedMore)
                   else if s.decodedSize + n > MAX_BODY_BYTES then Ends(TooLarge)
                   else if Slice(b, end + 2 + n, end + 2 + n + 2) != CRLF then Ends(BadChunk)
                   else GoesOn(FrameState(end + 2 + n + 2, s.decodedSize + n))
  {
    hide SizeOf, Slice, Find;
  }

  /** The inner loop over the trailer lines. */
  method SkipTrailers(b: Bytes, start: nat) returns (verdict: FrameVerdict)
    requires start <= |b|
    ensures verdict == FrameTrailers(b, start)
  {
    hide Find;
    var position := start;
    while true
      invariant position <= |b| && FrameTrailers(b, start) == FrameTrailers(b, position)
      decreases |b| - position
    {
      var trailerEnd := Find(b, CRLF, position);
      if trailerEnd == -1 { return NeedMore; }
      if trailerEnd == position { return Complete(trailerEnd + 2); }
      if ':' !in b[position..trailerEnd] { return BadChunk; }
      position := trailerEnd + 2;
    }
  }

  /** `_decode_chunked_body`, wherever its loop ends. */
  method DecodeChunkedBody(b: Bytes) returns (r: Decoded)
    requires DecoderHalts(b)
    ensures Decodes(b, r)
    ensures Decode(b) != Undecodable(MinusSize) ==> r == Decode(b)
  {
    hide SizeOf, FindFrom, Slice, Decode, DecodeLoop, DecodeTurn;
    var position: int, decoded: Bytes := 0, [];
    ghost var answer :| Decodes(b, answer);
    ghost var left: nat :| DecodeLoop(b, DECODE_START, left) == Ends(answer);
    DecoderEndsOnce(b, answer);
    while true
      invariant position <= |b|
      invariant DecodeLoop(b, DecodeState(position, decoded), left) == Ends(answer)
      decreases left
    {
      DecodeLoopTurns(b, DecodeState(position, decoded), left);
      DecodeTurnReads(b, DecodeState(position, decoded));
      left := left - 1;
      var lineEnd := FindFrom(b, CRLF, position);
      if lineEnd == -1 { return Undecodable(IncompleteSizeLine); }
      var size := SizeOf(Slice(b, position, lineEnd));
      if size.NoToken? { return Undecodable(MissingSize); }
      if size.BadToken? { return Undecodable(MalformedSize); }
      position := lineEnd + 2;
      if size.n == 0 {
        r := ReadTrailers(b, position, decoded);
        return;
      }
      var chunkEnd := position + size.n;
      if chunkEnd + 2 > |b| { return Undecodable(IncompleteData); }
      decoded := decoded + Slice(b, position, chunkEnd);
      if |decoded| > MAX_BODY_BYTES { return Undecodable(DecodedTooLarge); }
      if Slice(b, chunkEnd, chunkEnd + 2) != CRLF { return Undecodable(MissingTerminator); }
      position := chunkEnd + 2;
    }
  }

  lemma DecoderEndsOnce(b: Bytes, r: Decoded)
    requires Decodes(b, r)
    ensures Decode(b) != Undecodable(MinusSize) ==> r == Decode(b)
  {
    hide Decodes, Decode;
    if Decode(b) != Undecodable(MinusSize) { DecoderEnds(b, r); }
  }

  lemma DecodeLoopTurns(b: Bytes, s: DecodeState, left: nat)
    requires DecodeLoop(b, s, left).Ends?
    ensures left > 0
    ensures DecodeTurn(b, s).Ends? ==> DecodeTurn(b, s) == DecodeLoop(b, s, left)
    ensures DecodeTurn(b, s).GoesOn? ==> DecodeLoop(b, DecodeTurn(b, s).state, left - 1) == DecodeLoop(b, s, left)
  {
    hide DecodeTurn;
  }

  lemma DecodeTurnReads(b: Bytes, s: DecodeState)
    ensures var end := FindFrom(b, CRLF, s.position);
            && (end == -1 || 0 <= end <= |b| - 2)
            && DecodeTurn(b, s) ==
               if end == -1 then Ends(Undecodable(IncompleteSizeLine))
               else
                 match SizeOf(Slice(b, s.position, end))
                 case NoToken => Ends(Undecodable(MissingSize))
                 case BadToken => Ends(Undecodable(MalformedSize))
                 case Size(n) =>
                   if n == 0 then Ends(DecodeTrailers(b, end + 2, s.decoded)) else TakeData(b, end + 2, n, s.decoded)
  {
    hide SizeOf, Slice, Find, TakeData, DecodeTrailers;
  }

  /** The inner loop over the trailer lines, which must end the body. */
  method ReadTrailers(b: Bytes, start: nat, decoded: Bytes) returns (r: Decoded)
    requires start <= |b|
    ensures r == DecodeTrailers(b, start, decoded)
  {
    hide Find;
    var position := start;
    while true
      invariant position <= |b| && DecodeTrailers(b, start, decoded) == DecodeTrailers(b, position, decoded)
      decreases |b| - position
    {
      var trailerEnd := Find(b, CRLF, position);
      if trailerEnd == -1 { return Undecodable(IncompleteTrailers); }
      if trailerEnd == position {
        if trailerEnd + 2 != |b| { return Undecodable(TrailingBytes); }
        return Data(decoded);
      }
      if ':' !in b[position..trailerEnd] { return Undecodable(MalformedTrailer); }
      position := trailerEnd + 2;
    }
  }

  // ----- what the loops accept -----

  /** The framer's loop measures exactly the sentences of the grammar whose content fits. */
  lemma FramerMeasuresTheGrammar(b: Bytes, n: nat)
    requires n <= |b| && !Frame(b).SignedSize?
    ensures Measures(b, Complete(n))
            <==> exists p :: WellFormed(p) && |Content(p)| <= MAX_BODY_BYTES && Print(p) == b[..n]
  {
    hide Measures, Frame, WellFormed;
    FramerEnds(b, Complete(n));
    FramerIsTheGrammar(b, n);
  }

  /** The decoder's loop accepts exactly the sentences of the grammar and returns their content. */
  lemma DecoderDecodesTheGrammar(b: Bytes, body: Bytes)
    requires Decode(b) != Undecodable(MinusSize)
    ensures Decodes(b, Data(body))
            <==> exists p :: WellFormed(p) && Content(p) == body && |body| <= MAX_BODY_BYTES && Print(p) == b
  {
    hide Decodes, Decode, WellFormed;
    DecoderEnds(b, Data(body));
    DecoderIsTheGrammar(b, body);
  }

  /** A sentence of the grammar holds no minus sign, so both loops accept every one of them. */
  lemma SentencesAreAccepted(p: ChunkedBody, rest: Bytes)
    requires WellFormed(p) && |Content(p)| <= MAX_BODY_BYTES
    ensures Measures(Print(p) + rest, Complete(|Print(p)|)) && Decodes(Print(p), Data(Content(p)))
  {
    hide Measures, Decodes, Frame, Decode, WellFormed;
    assert (Print(p) + rest)[..|Print(p)|] == Print(p);
    FramerIsTheGrammar(Print(p) + rest, |Print(p)|);
    FramerEnds(Print(p) + rest, Complete(|Print(p)|));
    DecoderIsTheGrammar(Print(p), Content(p));
    DecoderEnds(Print(p), Data(Content(p)));
  }

  lemma {:induction false} MinusIsSigned(b: Bytes, position: nat, decoded: Bytes)
    requires position <= |b| && DecodeChunks(b, position, decoded) == Undecodable(MinusSize)
    ensures FrameChunks(b, position, |decoded|) == SignedSize
    decreases |b| - position
  {
    hide SizeOf, At, Find, FrameTrailers, DecodeTrailers;
    var end := Find(b, CRLF, position);
    var n, data := SizeOf(b[position..end]).n, end + 2;
    if n == 0 {
      TrailersAreUnsigned(b, data, decoded);
    } else if n > 0 {
      MinusIsSigned(b, data + n + 2, decoded + b[data..data + n]);
    }
  }

  lemma {:induction false} TrailersAreUnsigned(b: Bytes, position: nat, decoded: Bytes)
    requires position <= |b|
    ensures DecodeTrailers(b, position, decoded) != Undecodable(MinusSize)
    ensures !FrameTrailers(b, position).SignedSize?
    decreases |b| - position
  {
    hide Find;
    var end := Find(b, CRLF, position);
    if end > position { TrailersAreUnsigned(b, end + 2, decoded); }
  }

  /** The two loops, written apart, accept the same bodies. */
  lemma LoopsAgree(b: Bytes, n: nat)
    requires n <= |b| && !Frame(b).SignedSize?
    ensures Measures(b, Complete(n)) <==> exists body :: Decodes(b[..n], Data(body))
    ensures forall body :: Decodes(b[..n], Data(body)) ==> |body| <= MAX_BODY_BYTES
  {
    hide Measures, Decodes, FrameChunks;
    if Decode(b[..n]) == Undecodable(MinusSize) {
      MinusIsSigned(b[..n], 0, []);
      FrameChunksStable(b[..n], b, 0, 0);
    }
    hide Frame, Decode;
    FramerEnds(b, Complete(n));
    FramerAndDecoderAgree(b, n);
    forall body ensures Decodes(b[..n], Data(body)) <==> Decode(b[..n]) == Data(body) {
      DecoderEnds(b[..n], Data(body));
    }
    if Decode(b[..n]).Data? { assert Decodes(b[..n], Data(Decode(b[..n]).body)); }
  }

  // ----- with a minus sign -----

  /** Where the next CRLF stands, for a buffer given byte by byte. */
  lemma CrlfStandsAt(b: Bytes, p: nat, k: nat)
    requires p <= k && At(b, CRLF, k) && forall i :: p <= i < k ==> b[i] != '\r'
    ensures Find(b, CRLF, p) == k
  {
    forall i | p <= i < k ensures !At(b, CRLF, i) { AtCrlf(b, i); }
    FirstIsFound(b, CRLF, p, k);
  }

  lemma MinusTokens()
    ensures SizeOf("-2") == Size(-2) && SizeOf("-6") == Size(-6) && SizeOf("-8") == Size(-8)
    ensures SizeOf("0") == Size(0) && SizeOf("1") == Size(1)
  {
    TokenReads("-2", -2);
    TokenReads("-6", -6);
    TokenReads("-8", -8);
    TokenReads("0", 0);
    TokenReads("1", 1);
  }

  lemma TokenReads(token: Bytes, n: int)
    requires token != [] && ';' !in token && !ByteSpace(token[0]) && !ByteSpace(token[|token| - 1])
    requires ParseInt(token, 16) == Some(n)
    ensures SizeOf(token) == Size(n)
  {
    hide ParseInt;
    assert IndexOf(token, ';') == |token|;
    assert token[..|token|] == token;
  }

  const BACK_OVER_ITSELF: Bytes := "-2\r\n0\r\n\r\n"

  lemma BackOverItself()
    ensures var b := BACK_OVER_ITSELF;
            && |b| == 9 && FindFrom(b, CRLF, 0) == 2 && FindFrom(b, CRLF, 4) == 5 && FindFrom(b, CRLF, 7) == 7
            && Slice(b, 0, 2) == "-2" && Slice(b, 4, 5) == "0" && Slice(b, 2, 4) == CRLF && Slice(b, 4, 2) == []
  {
    var b := BACK_OVER_ITSELF;
    AtCrlf(b, 2);
    AtCrlf(b, 5);
    AtCrlf(b, 7);
    hide At, Find;
    CrlfStandsAt(b, 0, 2);
    CrlfStandsAt(b, 4, 5);
    CrlfStandsAt(b, 7, 7);
  }

  lemma BackOverItselfIsSigned()
    ensures Frame(BACK_OVER_ITSELF) == SignedSize && Decode(BACK_OVER_ITSELF) == Undecodable(MinusSize)
  {
    var b := BACK_OVER_ITSELF;
    assert b[0..2] == "-2";
    hide SizeOf, Find, At, Slice, BACK_OVER_ITSELF;
    MinusTokens();
    BackOverItself();
  }

  lemma BackOverItselfTrailers()
    ensures FrameTrailers(BACK_OVER_ITSELF, 7) == Complete(9)
    ensures DecodeTrailers(BACK_OVER_ITSELF, 7, []) == Data([])
  {
    assert |BACK_OVER_ITSELF| == 9;
    BackOverItself();
    hide Find, At, Slice, BACK_OVER_ITSELF;
  }

  /** Two turns of the framer, the first back to the line after its own. */
  lemma TwoFrameTurns(b: Bytes, next: int, n: int, answer: FrameVerdict)
    requires FrameTurn(b, FRAME_START) == GoesOn(FrameState(next, n))
    requires FrameTurn(b, FrameState(next, n)) == Ends(answer)
    ensures Measures(b, answer)
  {
    hide FrameTurn;
    assert FrameLoop(b, FrameState(next, n), 1) == Ends(answer);
    assert FrameLoop(b, FRAME_START, 2) == Ends(answer);
  }

  lemma TwoDecodeTurns(b: Bytes, next: int, decoded: Bytes, answer: Decoded)
    requires DecodeTurn(b, DECODE_START) == GoesOn(DecodeState(next, decoded))
    requires DecodeTurn(b, DecodeState(next, decoded)) == Ends(answer)
    ensures Decodes(b, answer)
  {
    hide DecodeTurn;
    assert DecodeLoop(b, DecodeState(next, decoded), 1) == Ends(answer);
    assert DecodeLoop(b, DECODE_START, 2) == Ends(answer);
  }

  lemma BackOverItselfMeasures()
    ensures Measures(BACK_OVER_ITSELF, Complete(9))
  {
    hide SizeOf, FindFrom, Slice, FrameTrailers, FrameTurn, Measures, BACK_OVER_ITSELF;
    var b := BACK_OVER_ITSELF;
    MinusTokens();
    BackOverItself();
    BackOverItselfTrailers();
    FrameTurnReads(b, FRAME_START);
    FrameTurnReads(b, FrameState(4, -2));
    TwoFrameTurns(b, 4, -2, Complete(9));
  }

  lemma BackOverItselfDecodes()
    ensures Decodes(BACK_OVER_ITSELF, Data([]))
  {
    hide SizeOf, FindFrom, Slice, DecodeTrailers, DecodeTurn, Decodes, BACK_OVER_ITSELF;
    var b := BACK_OVER_ITSELF;
    MinusTokens();
    BackOverItself();
    BackOverItselfTrailers();
    DecodeTurnReads(b, DECODE_START);
    DecodeTurnReads(b, DecodeState(4, []));
    TwoDecodeTurns(b, 4, [], Data([]));
  }

  /** A body that is no sentence of the grammar: the framer measures all nine bytes of it, and the
      decoder reads an empty body. */
  lemma SignedBodyIsAccepted()
    ensures var b := BACK_OVER_ITSELF;
            && |b| == 9 && Frame(b) == SignedSize && Decode(b) == Undecodable(MinusSize)
            && Measures(b, Complete(9)) && Decodes(b, Data([]))
            && !exists p :: WellFormed(p) && |Content(p)| <= MAX_BODY_BYTES && Print(p) == b
  {
    var b := BACK_OVER_ITSELF;
    assert |b| == 9;
    hide BACK_OVER_ITSELF, Frame, Decode, Measures, Decodes, WellFormed;
    BackOverItselfIsSigned();
    BackOverItselfMeasures();
    BackOverItselfDecodes();
    FramerIsTheGrammar(b, 9);
    assert b[..9] == b;
  }

  const BACK_TO_THE_SAME_LINE: Bytes := "1\r\nx\r\n-6\r\n"

  lemma BackToTheSameLine()
    ensures var b := BACK_TO_THE_SAME_LINE;
            && |b| == 10 && FindFrom(b, CRLF, 0) == 1 && FindFrom(b, CRLF, 6) == 8
            && Slice(b, 0, 1) == "1" && Slice(b, 6, 8) == "-6" && Slice(b, 3, 4) == "x"
            && Slice(b, 10, 4) == [] && Slice(b, 4, 6) == CRLF
  {
    var b := BACK_TO_THE_SAME_LINE;
    AtCrlf(b, 1);
    AtCrlf(b, 8);
    hide At, Find;
    CrlfStandsAt(b, 0, 1);
    CrlfStandsAt(b, 6, 8);
  }

  /** The second line brings the framer back to its own start, with a smaller count. */
  lemma FrameLineAgain(decodedSize: int)
    requires decodedSize <= 1
    ensures FrameTurn(BACK_TO_THE_SAME_LINE, FRAME_START) == GoesOn(FrameState(6, 1))
    ensures FrameTurn(BACK_TO_THE_SAME_LINE, FrameState(6, decodedSize)) == GoesOn(FrameState(6, decodedSize - 6))
  {
    hide SizeOf, FindFrom, Slice, BACK_TO_THE_SAME_LINE;
    MinusTokens();
    BackToTheSameLine();
  }

  /** And the decoder, with the same data. */
  lemma DecodeLineAgain()
    ensures DecodeTurn(BACK_TO_THE_SAME_LINE, DECODE_START) == GoesOn(DecodeState(6, "x"))
    ensures DecodeTurn(BACK_TO_THE_SAME_LINE, DecodeState(6, "x")) == GoesOn(DecodeState(6, "x"))
  {
    hide SizeOf, FindFrom, Slice, BACK_TO_THE_SAME_LINE;
    MinusTokens();
    BackToTheSameLine();
    assert [] + "x" == "x" && "x" + [] == "x";
  }

  lemma {:induction false} FrameStaysThere(decodedSize: int, turns: nat)
    requires decodedSize <= 1
    ensures FrameLoop(BACK_TO_THE_SAME_LINE, FrameState(6, decodedSize), turns)
            == GoesOn(FrameState(6, decodedSize - 6 * turns))
    decreases turns
  {
    hide FrameTurn, BACK_TO_THE_SAME_LINE;
    FrameLineAgain(decodedSize);
    if turns > 0 { FrameStaysThere(decodedSize - 6, turns - 1); }
  }

  lemma {:induction false} DecodeStaysThere(turns: nat)
    ensures DecodeLoop(BACK_TO_THE_SAME_LINE, DecodeState(6, "x"), turns) == GoesOn(DecodeState(6, "x"))
    decreases turns
  {
    hide DecodeTurn, BACK_TO_THE_SAME_LINE;
    DecodeLineAgain();
    if turns > 0 { DecodeStaysThere(turns - 1); }
  }

  /** So neither loop ever ends. */
  lemma LoopsNeedNotEnd()
    ensures forall v :: !Measures(BACK_TO_THE_SAME_LINE, v)
    ensures forall r :: !Decodes(BACK_TO_THE_SAME_LINE, r)
  {
    hide FrameTurn, DecodeTurn, BACK_TO_THE_SAME_LINE;
    FrameLineAgain(1);
    DecodeLineAgain();
    forall turns: nat ensures FrameLoop(BACK_TO_THE_SAME_LINE, FRAME_START, turns).GoesOn? {
      if turns > 0 { FrameStaysThere(1, turns - 1); }
    }
    forall turns: nat ensures DecodeLoop(BACK_TO_THE_SAME_LINE, DECODE_START, turns).GoesOn? {
      if turns > 0 { DecodeStaysThere(turns - 1); }
    }
  }

  const BEFORE_THE_START: Bytes := "-8\r\n"

  lemma BeforeTheStart()
    ensures var b, b' := BEFORE_THE_START, BEFORE_THE_START + "\r\nab";
            && |b| == 4 && |b'| == 8 && FindFrom(b, CRLF, 0) == 2 && FindFrom(b', CRLF, 0) == 2
            && Slice(b, 0, 2) == "-8" && Slice(b', 0, 2) == "-8"
            && Slice(b, -4, -2) != CRLF && Slice(b', -4, -2) == CRLF && FindFrom(b', CRLF, -2) == -1
  {
    var b, b' := BEFORE_THE_START, BEFORE_THE_START + "\r\nab";
    assert b' == "-8\r\n\r\nab";
    AtCrlf(b, 2);
    AtCrlf(b', 2);
    AtCrlf(b', 6);
    assert Find(b', CRLF, 6) == -1;
    hide At, Find;
    CrlfStandsAt(b, 0, 2);
    CrlfStandsAt(b', 0, 2);
    assert Slice(b, -4, -2)[0] == '-' && Slice(b', -4, -2) == b'[4..6];
  }

  /** A verdict that changes: alone the line is malformed, with four more bytes it needs more. */
  lemma SignedVerdictChanges()
    ensures Measures(BEFORE_THE_START, BadChunk)
    ensures Measures(BEFORE_THE_START + "\r\nab", NeedMore)
  {
    var b, b' := BEFORE_THE_START, BEFORE_THE_START + "\r\nab";
    MinusTokens();
    BeforeTheStart();
    hide SizeOf, FindFrom, Slice;
    assert FrameTurn(b, FRAME_START) == Ends(BadChunk);
    assert FrameTurn(b', FRAME_START) == GoesOn(FrameState(-2, -8));
    assert FrameTurn(b', FrameState(-2, -8)) == Ends(NeedMore);
    hide FrameTurn;
    assert FrameLoop(b, FRAME_START, 1) == Ends(BadChunk);
    assert FrameLoop(b', FrameState(-2, -8), 1) == Ends(NeedMore);
    assert FrameLoop(b', FRAME_START, 2) == Ends(NeedMore);
  }
}

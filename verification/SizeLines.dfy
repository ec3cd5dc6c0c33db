/** What a chunk-size line means: a hexadecimal number, with white space around it, and an extension
    behind a semicolon that is passed over (section 7.1.1 of RFC 9112). */
module SizeLines {
  import opened Wrappers
  import opened ByteStrings
  import opened TextReading
  import opened Chunked

  /** A size line: padding, the number, padding, and an extension if there is one. */
  datatype Dressing = Dressing(pre: Bytes, post: Bytes, extension: Option<Bytes>)

  function Line(d: Dressing, n: nat): Bytes {
    d.pre + Hex(n) + d.post + if d.extension.Some? then ";" + d.extension.value else []
  }

  lemma NoSemicolon(s: Bytes)
    requires AllSpace(s, ByteSpace) || IsNumeral(s)
    ensures ';' !in s
  {
    forall i | 0 <= i < |s| ensures s[i] != ';' { if IsNumeral(s) { assert IsDigitChar(s[i]); } }
  }

  /** Whatever it is dressed in, a size line is read as its number. */
  lemma SizeLineIsRead(d: Dressing, n: nat)
    requires AllSpace(d.pre, ByteSpace) && AllSpace(d.post, ByteSpace)
    ensures SizeOf(Line(d, n)) == Size(n)
  {
    var token, line := d.pre + Hex(n) + d.post, Line(d, n);
    NumeralIsNumeral(n, 16);
    NoSemicolon(d.pre);
    NoSemicolon(Hex(n));
    NoSemicolon(d.post);
    assert IsDigitChar(Hex(n)[0]) && IsDigitChar(Hex(n)[|Hex(n)| - 1]);
    assert Bare(Hex(n), ByteSpace);
    StripTakesAway(d.pre, Hex(n), d.post, ByteSpace);
    ParseIntReads(n, 16);
    BeforeSemicolon(token, if d.extension.Some? then ";" + d.extension.value else []);
    hide Strip, ParseInt, Numeral, Before;
  }

  lemma BeforeSemicolon(token: Bytes, more: Bytes)
    requires ';' !in token && (more == [] || more[0] == ';')
    ensures Before(token + more, ';') == token
  {
    var line := token + more;
    if more == [] {
      assert line == token && IndexOf(line, ';') == |line|;
    } else {
      assert line[|token|] == ';' && line[..|token|] == token;
      IndexOfIs(line, ';', |token|);
    }
  }

  // ----- dressed chunks -----

  datatype DressedChunk = DressedChunk(dressing: Dressing, data: Bytes)

  predicate Proper(d: Dressing, n: nat) {
    AllSpace(d.pre, ByteSpace) && AllSpace(d.post, ByteSpace) && IsLine(Line(d, n))
  }

  function Body(chunks: seq<DressedChunk>, last: Dressing, trailers: Trailers): ChunkedBody {
    if chunks == [] then Last(Line(last, 0), trailers)
    else Chunk(Line(chunks[0].dressing, |chunks[0].data|), chunks[0].data, Body(chunks[1..], last, trailers))
  }

  function DataOf(chunks: seq<DressedChunk>): seq<Bytes> {
    seq(|chunks|, i requires 0 <= i < |chunks| => chunks[i].data)
  }

  predicate AllProper(chunks: seq<DressedChunk>) {
    forall i :: 0 <= i < |chunks| ==> chunks[i].data != [] && Proper(chunks[i].dressing, |chunks[i].data|)
  }

  lemma {:induction false} BodyIsWellFormed(chunks: seq<DressedChunk>, last: Dressing, trailers: Trailers)
    requires AllProper(chunks) && Proper(last, 0) && WellFormedTrailers(trailers)
    ensures WellFormed(Body(chunks, last, trailers))
    ensures Content(Body(chunks, last, trailers)) == Flatten(DataOf(chunks))
    decreases |chunks|
  {
    hide Line, SizeOf, Find;
    if chunks == [] {
      SizeLineIsRead(last, 0);
    } else {
      SizeLineIsRead(chunks[0].dressing, |chunks[0].data|);
      assert forall i :: 0 <= i < |chunks[1..]| ==> chunks[1..][i] == chunks[i + 1];
      BodyIsWellFormed(chunks[1..], last, trailers);
      assert DataOf(chunks)[1..] == DataOf(chunks[1..]);
    }
  }

  /** Round trip for any sender, not just this one: chunks printed with white space and extensions on
      their size lines, and with trailers behind the last one, are measured exactly and decode to
      the joined data. */
  lemma DressedRoundTrip(chunks: seq<DressedChunk>, last: Dressing, trailers: Trailers, rest: Bytes)
    requires AllProper(chunks) && Proper(last, 0) && WellFormedTrailers(trailers)
    requires |Flatten(DataOf(chunks))| <= MAX_BODY_BYTES
    ensures var b := Print(Body(chunks, last, trailers));
            Decode(b) == Data(Flatten(DataOf(chunks))) && Frame(b + rest) == Complete(|b|)
  {
    hide WellFormed, FrameChunks, DecodeChunks, Print, Content, Line;
    var p := Body(chunks, last, trailers);
    var b := Print(p);
    BodyIsWellFormed(chunks, last, trailers);
    assert b[0..|b|] == b && (b + rest)[0..|b|] == b;
    PrintedChunks(b, 0, p, []);
    PrintedFrame(b + rest, 0, p, 0);
    assert [] + Content(p) == Content(p);
  }
}

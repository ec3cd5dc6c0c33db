# The message core of the server, and four of its stateful components

The server speaks HTTP/1.1 twice: a blocking engine with a thread pool, and an engine on selectors
that keeps a receive buffer, a queue of responses and a closing flag for each connection. Both share
a framer, which gives a verdict on a growing buffer, and a parser, which reads the framed bytes a
second time; an encoder prints the chunked coding of section 7.1 of RFC 9112. This project models
that core and proves that its parts agree: framer, decoder and encoder with one grammar, framer and
parser with each other, both engines with one fold over the byte stream, and the write side with the
concatenation of the responses. Beside it stand the trend store with its percentiles, the event hub
with its polling client, the thread pool, and the scenario engine with its run index.

| file | what it holds |
|---|---|
| `ByteStrings.dfy`, `TextReading.dfy` | bytes as characters below 256, first occurrence, lines, `strip`, `lower`, `int`, and what they mean |
| `Chunked.dfy`, `ChunkLoops.dfy`, `SignedLoops.dfy` | framer, decoder and encoder of the chunked coding and its grammar; the loops as written; what they do with minus signs |
| `SizeLines.dfy` | what a size line means, and bodies of other senders |
| `Framer.dfy`, `RequestParser.dfy` | verdict on a buffer, second reading, first field against last field |
| `RequestReading.dfy` | what the parser reads in a printed request |
| `Responses.dfy`, `ResponseFraming.dfy`, `ResponseReading.dfy` | wire form of a response, the blocking writer, what a head announces, and what a client reads in it |
| `Engine.dfy`, `EngineAgreement.dfy`, `EngineTheorems.dfy` | both read loops, the fold they refine, and what follows |
| `AnswerTheorems.dfy` | which status refuses which bytes, when the connection closes, when the peer is told to continue |
| `Connection.dfy`, `ConnectionRuns.dfy` | the connection as mutable state, one event at a time, and whole runs |
| `Registry.dfy` | registered connections and the open-connection gauge |
| `Percentile.dfy`, `TrendStore.dfy`, `TrendTheorems.dfy` | histograms, both trend backends, what their rows mean |
| `ThreadPool.dfy` | the worker pool as interleaved atomic steps |
| `EventHub.dfy` | the bounded event log and its polling client |
| `ScenarioEngine.dfy`, `ScenarioStore.dfy` | scenario runs and reports, and the index of runs |
| `Witnesses.dfy` | concrete messages that show why side conditions are needed |

`dafny verify dfyconfig.toml` checks everything.

## Conditions the code needs

These hold where the source relies on them. Each is a hypothesis of the theorems that need it or one
side of an if-and-only-if, and a lemma shows an input on which it fails:

- **Reads within the buffer limit.** The fold has no limit on the buffer as a whole. `RunUnderTheGuard`
  says what is answered when a read takes the buffer over MAX_REQUEST_BYTES; `SelectorRefinesFold`,
  `BlockingRefinesFold` and `EnginesAgree` give the exact condition under which that makes no
  difference. Without chunked heads it always holds (`LengthFramedNeverHitsTheGuard`); with them the
  answers can depend on how the stream is cut (`GuardSeesTheCut`, `AnswersCanDependOnTheCut`).
- **Chunk sizes without a minus sign.** `int(token, 16)` takes a sign. A plus sign, `0x` and
  underscores are no trouble; a minus sign moves both loops back. `ChunkLoops` has one turn of each
  loop as written, and `SignedLoops` the exact conditions: when a loop ends (`FramerHaltsExactly`,
  `DecoderHaltsExactly`), when it accepts only sentences of the grammar (`MeasuredSentencesExactly`,
  `DecodedSentencesExactly`), and when a verdict stands (`VerdictStandsExactly`, carried to messages
  by `VerdictIsStable` and `ExtractIsStable`). `SignedBodyIsAccepted`, `LoopsNeedNotEnd` and
  `SignedVerdictChanges` are inputs where each fails. The functions `Frame`, `Decode`, `Verdict` and
  `Extract` mark a buffer that reaches such a size (`SignedSize`, `MinusSize`) and say nothing else
  about it. The hypotheses are `!Frame(b).SignedSize?` for one body, `UnsignedStream` for a stream,
  and `Unsigned` for the buffers held while some pieces are read; `UnsignedStreamUnsignedReads`
  relates the last two.
- **Non-empty stream chunks.** `RoundTrip` is exact: it fails for every list with an empty chunk,
  because that prints as the terminator (`PrintEndsAtFirstEmpty`). In the selectors engine an empty
  chunk also becomes an empty view, behind which nothing is ever sent: a connection gets stuck only at
  such a response and never completes one (`OnlySendableFinish`, `ServeConnection`).
- **At most one Content-Length and one Transfer-Encoding.** The framer reads the first field of a
  name and the parser the last. `FramedMessagesParse` gives the exact condition under which the
  parser refuses what the framer accepted; single fields never conflict; `TwoLengthsConflict` shows
  that two can.
- **End of stream inside a message** is answered differently by the engines, by design;
  `EnginesAgreeAtEof` is exact about it.
- **Fresh and unpadded run ids.** `AddRun` and `ReloadGivesTheSameIndex` are exact about both.
- **No route called `__all__`.** `AllIsTheSumOfRoutes` is exact about it.

The environment enters as parameters: the URL library, whether the server is draining when a request
comes up, the response a handler gives to a decided answer, the clock's date, the answers a scenario
step receives, and, for ids and names that may be any text, `strip` and `lower`. Sends, reads, idle
sweeps and thread switches are nondeterministic: a send takes any part of what it is offered, nothing,
or fails.

## Model

| member | source | states |
|---|---|---|
| `ChunkLoops.ChunkedBodyCompleteLength` | socket_handler.py:108-143 | The measuring loop as written, on every buffer on which it ends, minus signs or not: it returns what the turns end with, and without a minus sign the answer of `Frame` |
| `ChunkLoops.DecodeChunkedBody` | request.py:140-182 | The decoding loop as written, on every body on which it ends: it returns what the turns end with, and without a minus sign the answer of `Decode`, which names the error of each branch |
| `ChunkLoops.FramerEnds` | socket_handler.py:111-143 | Turn by turn, with Python's slices and indices: without a minus sign the loop ends with the answer of `Frame` and no other |
| `ChunkLoops.DecoderEnds` | request.py:144-182 | The same for the decoder and `Decode` |
| `ChunkLoops.FramerMeasuresTheGrammar` | socket_handler.py:108-143 | Without a minus sign, the loop measures a buffer as `n` bytes if and only if its first `n` bytes are a sentence of the chunked grammar whose content fits MAX_BODY_BYTES |
| `ChunkLoops.DecoderDecodesTheGrammar` | request.py:140-182 | Without a minus sign, the loop returns a body if and only if the input is a sentence of the grammar with that content, within the limit; the content is the chunks joined |
| `ChunkLoops.SentencesAreAccepted` | socket_handler.py:108-143 | Every sentence of the grammar that fits is accepted by both loops, whatever follows it; no hypothesis on signs is needed |
| `ChunkLoops.LoopsAgree` | request.py:140-182 | The two loops, written apart, accept the same bodies: without a minus sign, measured as `n` if and only if the first `n` bytes decode, to at most MAX_BODY_BYTES |
| `SignedLoops.VerdictStandsExactly` | socket_handler.py:111-143 | A verdict of the loop other than need-more is its verdict on every longer buffer, if and only if no turn looks for the end of its data at a negative index that counts from the end of the buffer |
| `SignedLoops.OneByteIsBad` | socket_handler.py:141-142 | Where a turn does, any verdict but malformed is lost with the very next byte |
| `SignedLoops.PaddingNeedsMore` | socket_handler.py:141-142 | And as many bytes as the turn looks back can always make the loop need more |
| `SignedLoops.FramerHaltsExactly` | socket_handler.py:111-143 | The framer's loop ends if and only if no two of its turns start from the same position, the later one with no larger decoded size |
| `SignedLoops.DecoderHaltsExactly` | request.py:144-182 | The decoder's loop ends if and only if no two of its turns start from the same position with the same data |
| `SignedLoops.MeasuredSentencesExactly` | socket_handler.py:119-143 | What the loop measures is a sentence of the grammar that fits, if and only if no size reached has a minus sign |
| `SignedLoops.DecodedSentencesExactly` | request.py:154-182 | The same for what the decoder accepts |
| `SignedLoops.UnsignedIsStable` | socket_handler.py:119-143 | Where no size has a minus sign, the loop ends and no turn counts from the end of the buffer |
| `ChunkLoops.SignedBodyIsAccepted` | socket_handler.py:119-143 | With one, a body that is no sentence of the grammar: nine bytes that the framer measures whole and the decoder reads as an empty body |
| `ChunkLoops.FrameLineAgain` | socket_handler.py:119-143 | With one, a body whose second line brings the framer back to its own start, with a smaller decoded size |
| `ChunkLoops.LoopsNeedNotEnd` | request.py:154-182 | An instance of the exact condition: on that body neither loop ever ends |
| `ChunkLoops.SignedVerdictChanges` | socket_handler.py:141-142 | An instance of the exact condition: a verdict that is malformed alone and need-more with four bytes behind it |
| `Chunked.FrameChunksFits` | socket_handler.py:112-143 | A measured body ends inside the buffer and is not empty |
| `Chunked.RoundTrip` | response.py:113-118 | For every list of chunks, the decoder reads the print back as the joined chunks if and only if no chunk is empty and they fit MAX_BODY_BYTES |
| `Chunked.PrintEndsAtFirstEmpty` | response.py:113-118 | Whatever the chunks hold and whatever follows, the framer measures the print as ending where the chunks before the first empty one end, and the decoder refuses the bytes behind it |
| `Chunked.ChunkingIsInvisible` | response.py:113-118 | Two ways of cutting the same data into chunks decode to the same body |
| `SizeLines.SizeLineIsRead` | socket_handler.py:115-121 | A size line is its hexadecimal number, whatever white space stands around it and whatever extension follows a semicolon |
| `SizeLines.DressedRoundTrip` | request.py:149-182 | Chunks printed by any sender, with padding and extensions on their size lines and with trailers, are measured exactly, whatever follows, and decode to the joined data |
| `TextReading.StripTakesAway` | request.py:83-86 | White space around a bare text is stripped and nothing else |
| `TextReading.WhiteSpace` | request.py:83 | Which six bytes, and which twelve characters below 256, are white space |
| `TextReading.LowerChanges` | request.py:83 | Lower-casing changes exactly the upper-case letters below 256, each to a letter of its own that stays as it is |
| `TextReading.LowerAlphabet` | request.py:83 | The plain letters in particular |
| `AnswerTheorems.CaseDoesNotMatter` | request.py:57-83 | Names that differ in the case of plain letters alone are the same to the parser |
| `TextReading.UnderscoreIsPassedOver` | request.py:154 | A single underscore between two digits does not count |
| `TextReading.UnderscoreAlone` | request.py:154 | One at the start makes it no number |
| `TextReading.ParseIntReads` | request.py:102 | A printed number is read back, plain, with a sign and in the other case; a decimal one of more than 4300 digits is refused |
| `TextReading.NumeralIsPlain` | response.py:107 | Printed numbers have upper-case digits of their base only, and no leading zero |
| `TextReading.PrefixIsForHex` | request.py:154 | A `0x` prefix is read in base 16 and refused in base 10 |
| `Framer.ExtractMessage` | socket_handler.py:146-200 | The verdict of the source on every buffer on which it comes to one (incomplete, message of some length, or one of three errors), with the whole-buffer guard first; without a minus sign that of the function `Extract` |
| `Framer.JudgesIsVerdict` | socket_handler.py:181-200 | Where no size has a minus sign, the source comes to the verdict of the function and no other |
| `Framer.MessageShape` | socket_handler.py:187-196 | What a buffer that is exactly one message consists of: an accepted head, and a body of the announced length or a body measured to its end |
| `Framer.MessageFits` | socket_handler.py:198-200 | A message has at least the four bytes of the separator and lies inside the buffer |
| `Framer.HeadIsStable` | socket_handler.py:151-178 | A head, accepted or refused, stays the same when the buffer grows, also when it was too large before the separator was seen |
| `Framer.VerdictIsStable` | socket_handler.py:181-200 | A message or an error of the source is its verdict on every longer buffer, if and only if no turn over a chunked body counts from the end of the buffer |
| `Framer.ExtractIsStable` | socket_handler.py:146-200 | The same with the guard, on buffers within MAX_REQUEST_BYTES: exact for a message and for a body too large; a malformed one stands without such a turn, and does not if the limit has room for what the turn looks back |
| `Framer.MessagesArePrefixFree` | socket_handler.py:181-200 | Every proper prefix of a complete message without a minus sign is incomplete |
| `Framer.MessageAlone` | socket_handler.py:198-200 | The bytes handed on are framed again as the same message, with nothing left over |
| `Framer.WaitingBufferIsSmall` | socket_handler.py:187-196 | A reader that needs more, and sees no chunked head, holds fewer than 540672 bytes |
| `AnswerTheorems.HeadAnnounces` | socket_handler.py:161-178 | An accepted head is chunked if and only if its transfer coding, in any case, contains `chunked`, and then has no length; otherwise it announces what its Content-Length says, or nothing |
| `RequestParser.ParseHeaders` | request.py:76-86 | The loop that fills the header dictionary: the last field of a name wins, blank lines are skipped, a malformed line or empty name is refused |
| `RequestParser.FromBytes` | request.py:42-128 | The answer of the source wherever it ends: the request or its first error, in the order of the checks; without a minus sign that of the function `Parse` |
| `RequestParser.FramedMessagesAreUnsigned` | request.py:91-98 | In a message the framer has handed on without meeting a minus sign, the parser does not meet one either |
| `RequestParser.DictionaryKeepsTheLast` | request.py:76-86 | The dictionary holds the last field of every name |
| `RequestParser.FirstAgainstLast` | socket_handler.py:50-105 | The framer's scanner and the dictionary agree on presence, and on the value when a name occurs once |
| `RequestParser.BodyConflict` | request.py:91-113 | Once the header lines parse, the body of a framed message is refused if and only if the first and last fields of a name conflict in a way that matters |
| `RequestParser.FramedMessagesParse` | request.py:43-113 | A framed message has its separator, and once its request line and headers parse it is refused if and only if its repeated framing fields conflict |
| `RequestParser.SingleFieldsNeverConflict` | request.py:91-113 | With at most one Content-Length and one Transfer-Encoding, a framed message is never refused for its framing |
| `RequestParser.ChunkedRequestRoundTrip` | request.py:97-98 | A whole chunked request printed before any pipelined bytes is cut off exactly and parsed to the joined chunks |
| `RequestParser.SizedRequestRoundTrip` | request.py:99-113 | The same for a request with a Content-Length |
| `AnswerTheorems.FieldIsRead` | request.py:82-86 | A field is read whatever the case of its name and whatever white space stands around name and value |
| `AnswerTheorems.RequestLineIsRead` | request.py:50-73 | A request line of three words is read as these words, the method in upper case, or refused for the first of unknown method, unknown version, long target and bad target |
| `RequestReading.RequestIsReadBack` | request.py:42-128 | The parser reads what a client printed: method, target, path, query, version and body, and for every name the last value printed; no other name is in the dictionary |
| `RequestReading.SizedRequestIsReadBack` | request.py:42-128 | From the printed bytes alone, whatever is pipelined behind them: a request with its length is cut off exactly and parsed to what was printed |
| `RequestReading.ChunkedRequestIsReadBack` | request.py:42-128 | The same for a request printed in chunks |
| `Responses.Serialize` | response.py:56-73 | The bytes of a response: its head, then body, chunked stream or file |
| `Responses.WriteResponseMessage` | socket_handler.py:259-313 | The blocking writer puts exactly the wire form on the socket and reports its length, whichever way it copies a file; only a sendfile that reports nothing sent ends it early, with the bytes written counted |
| `Responses.WriteStream` | socket_handler.py:277-281 | All pieces of an encoded stream are written in order and counted |
| `Responses.WriteFile` | socket_handler.py:283-311 | A file is written from the start without a gap, however much sendfile takes at a time, and to its end unless sendfile reports nothing sent |
| `ResponseFraming.PreparedFraming` | response.py:76-105 | A stream is announced as chunked and without a length, anything else with its length (or the override) and without a transfer coding |
| `ResponseFraming.HeadIsRead` | response.py:107-110 | A prepared head, read by the header scanners, announces exactly the payload it was prepared for, of any size |
| `ResponseFraming.ResponseFramesItself` | response.py:56-73 | For every payload form and size, the bytes of a response followed by anything are cut off exactly after the response by a client without limits |
| `ResponseFraming.ResponsesAreToldApart` | response.py:56-73 | A client that cuts the concatenated responses of a connection by the framing rules gets the responses back one by one |
| `ResponseReading.StatusLineIsRead` | response.py:107 | The status line splits into `HTTP/1.1`, the number of the status, and the given or known reason |
| `ResponseReading.PhrasesDiffer` | response.py:10-27 | The known reason phrases tell their statuses apart |
| `ResponseReading.ResponseIsReadBack` | response.py:76-110 | A client reads back the status of any well-formed response, and every field but the two for framing with the value the handler gave it, or else the default of the server |
| `ResponseReading.PreparedFieldsAreDistinct` | response.py:78-105 | Filling in defaults and framing prints no field twice that the handler set once |
| `ResponseReading.BodyIsReadBack` | response.py:56-73 | The bytes behind the head are the body or the file, or for a stream a sentence of the chunked grammar whose content is the chunks joined, of any size |
| `ResponseReading.ContinueIsReadBack` | server.py:2085 | The interim response is a head of its own with status 100 and no fields |
| `Engine.AnswerRequest` | server.py:1955-2061 | What both engines answer to one framed message: parse error status, 503 while draining from the second request on, or the handler's response, and whether it closes |
| `AnswerTheorems.ClosesAsAsked` | request.py:131-137 | The connection closes behind a served request if it is the thousandth; before that, on HTTP/1.1 if and only if the Connection field contains `close`, and on HTTP/1.0 if and only if it does not contain `keep-alive` |
| `AnswerTheorems.DrainingTurnsAway` | server.py:2000 | A request is turned away if and only if the server drains and it is not the first of its connection, and then the connection closes |
| `AnswerTheorems.RefusedRequestLine` | request.py:58-70 | 501 for an unknown method, 505 for an unknown version, 414 for a target over 2048, 400 for one the URL library refuses, in this order |
| `AnswerTheorems.BrokenRequestLineIsRefused` | request.py:50-56 | 400 for a request line that is not three words with single blanks between them |
| `AnswerTheorems.LongHeadIsRefused` | socket_handler.py:151-159 | A header section is waited for up to 16384 bytes and answered with 431 beyond, seen to its end or not |
| `AnswerTheorems.BigBufferIsRefused` | socket_handler.py:148-149 | Both engines answer 413 to a buffer of more than 1048576 bytes |
| `AnswerTheorems.BadLengthIsRefused` | socket_handler.py:63-79 | 400 for a length that is no number or negative, 413 for one above 524288 |
| `AnswerTheorems.MalformedHeadIsRefused` | socket_handler.py:50-105 | 400 for chunked coding with a length, and for a line without a colon that any scanner meets |
| `AnswerTheorems.BadChunksAreRefused` | socket_handler.py:187-191 | 413 for a chunked body that is too large, 400 for a malformed one |
| `AnswerTheorems.BadBodyIsRefused` | request.py:97-98 | The same for what the parser cannot decode |
| `AnswerTheorems.ConflictIsRefused` | request.py:91-113 | The refusal of a conflict of repeated fields is a 413 if the framer took the body for chunked, and a 400 otherwise |
| `AnswerTheorems.HostIsRequired` | request.py:88-89 | HTTP/1.1 without a Host field is answered with 400; HTTP/1.0 needs none |
| `AnswerTheorems.BadFieldIsRefused` | request.py:77-84 | 400 for a line without a colon or with a blank name, wherever it stands |
| `Engine.FoldExtends` | server.py:1893-2064 | The fold over a longer stream starts with the fold over the shorter one and goes on from what that left |
| `Engine.UnsignedStreamUnsignedReads` | server.py:1893-1896 | However a stream without a minus sign is cut, no buffer held while it is read reaches one |
| `Engine.SelectorRefinesFold` | server.py:1871-2066 | However the stream is cut into reads, the selectors engine gives the answers of one recursive fold over the whole stream, if and only if no read takes the buffer over MAX_REQUEST_BYTES or the one that does finds a message at the front that the fold answers with 413 too |
| `Engine.RunUnderTheGuard` | socket_handler.py:148-149 | And otherwise it gives exactly the fold's answers up to that read, and then 413 where the fold has something else |
| `Engine.NotCutShort` | socket_handler.py:148-149 | The guard changes no answer if and only if no read passes the limit, or the first one that does finds at the front a message that the fold answers with 413 |
| `Engine.DrainIsFold` | server.py:1893-2064 | The inner loop of one read does what the fold does on the buffered bytes |
| `Engine.ReadHttpRequestMessage` | socket_handler.py:203-245 | Reads until a message, an error or the last piece, and calls back for 100 Continue at most once, exactly if some buffer held was an incomplete message that asks for it |
| `Engine.HandleClient` | server.py:1588-1821 | The loop of the blocking engine, for a peer that ends with silence, a close, a timeout or a socket error and for writes that may fail: its answers, its 100 Continue responses and whether it closes |
| `Engine.ServedAgainstTheRun` | server.py:1600-1604 | What it says is a prefix of what it says when every write succeeds, and then it is the run, its interim responses and the answer to the last read |
| `EngineAgreement.SelectorTalks` | server.py:1893-2064 | From any state, on any further reads, what the selectors engine says is what one recursion over the buffer and the reads says |
| `EngineAgreement.BlockingTalks` | server.py:1595-1819 | The nested loops of the blocking engine say what the same recursion says |
| `EngineAgreement.SameReadsSameTalk` | server.py:1871-2066 | On the same reads, over the buffer limit or not, both engines give the same answers, send 100 Continue for the same requests, and close alike |
| `EngineTheorems.BlockingRefinesFold` | server.py:1595-1819 | The blocking engine gives the answers of the fold under the same if-and-only-if condition |
| `EngineTheorems.EnginesAgree` | server.py:1595-1819 | Both engines, on any two cuts of one stream, give the same answers in the same order if and only if the buffer limit cuts both short after the same request, or neither |
| `EngineTheorems.EnginesAgreeAtEof` | socket_handler.py:240-243 | When the peer closes, the blocking engine adds a 400 to the answers of the selectors engine if and only if a message has been begun, which within the buffer limit is if and only if the stream ends inside a message |
| `EngineTheorems.SilentPeers` | server.py:1595-1819 | A peer that falls silent or fails hears the same from both engines, and one that lets the connection time out hears a 408 behind that |
| `EngineTheorems.PipelineIsAnsweredInOrder` | server.py:1949-2064 | Pipelined messages are taken apart where they were joined and answered in order, up to the first answer that closes |
| `EngineTheorems.AnswersAreInOrder` | server.py:1997-2064 | All answers but the last serve requests, numbered without a gap; the connection closes exactly with a closing answer; no connection serves more than 1000 requests |
| `EngineTheorems.LengthFramedNeverHitsTheGuard` | socket_handler.py:148-171 | Without chunked heads no buffer ever passes 548863 bytes (544767 in the blocking engine), so the whole-buffer guard cannot fire and both conditions of the refinement hold |
| `EngineTheorems.GuardSeesTheCut` | socket_handler.py:148-149 | An instance of the exact condition: a message of exactly MAX_REQUEST_BYTES with one byte behind it is served under one cut and refused with 413 under another |
| `Witnesses.MessageOfSize` | socket_handler.py:125-134 | There is a served message of every size from 63 bytes on, so of MAX_REQUEST_BYTES too |
| `Witnesses.AnswersCanDependOnTheCut` | socket_handler.py:148-149 | A concrete stream and two cuts of it that the selectors engine answers differently |
| `Witnesses.TwoLengthsConflict` | socket_handler.py:63-79 | A concrete message with two Content-Length fields that the framer hands on and the parser refuses |
| `EngineTheorems.DrainKeepsContinue` | server.py:2068-2086 | One read queues at most one 100 Continue, and only for a request whose head is accepted, asks for it, and whose message is incomplete; the remembered header end stays the one of the buffer |
| `EngineTheorems.AtMostOneContinue` | server.py:1945-1951 | From any state that keeps this invariant, no request gets a second 100 Continue under any fragmentation |
| `EngineTheorems.OneContinuePerRequest` | socket_handler.py:218-233 | From the first byte on, in both engines, at most one 100 Continue per request |
| `AnswerTheorems.ExpectationIsRead` | socket_handler.py:95-105 | The framer sees an expectation if and only if the dictionary of the parser has `expect` with the value `100-continue` in any case, for a field that occurs once at most |
| `AnswerTheorems.ContinueIsSentWhenAsked` | server.py:2068-2086 | While a message with an accepted head is incomplete, both engines tell the peer to continue if and only if the dictionary asks for it, the selectors engine unless it already has |
| `Connection.OutboundResponse.constructor` | server.py:142-183 | A queued response owes exactly its wire form |
| `Connection.OutboundResponse.SendPending` | server.py:158-177 | Offering a view to the socket moves the bytes it took from owed to sent, whatever part it took; it waits only if the socket left some or the view is empty |
| `Connection.OutboundResponse.SendFilePart` | server.py:188-219 | The same for sendfile, with offset and remaining in step |
| `Connection.OutboundResponse.ReadFilePart` | server.py:221-227 | Reading the next part of a file into a view changes nothing that is owed |
| `Connection.OutboundResponse.Advance` | server.py:2158-2232 | One turn of the write loop: bytes taken plus bytes owed stay the wire form, going on at once lowers a measure; a finished response has sent all of it and was no stream with an empty chunk, and an empty first view means that it is one |
| `Responses.EmptyPieces` | response.py:113-118 | The encoder yields an empty piece if and only if some chunk is empty |
| `Connection.ConnectionState.TakenPlusOwed` | server.py:2148-2239 | While a connection is open, bytes sent, then what the current response owes, then the queued responses are the concatenated wire forms of all answers |
| `Connection.ConnectionState.SentBytes` | server.py:2129-2239 | Open or closed, the wire is a merge of the interim bytes and the response bytes sent, each in order; response bytes are a prefix of the concatenated wire forms, and all of them when the connection closed by itself; bytes on the wire plus bytes still owed are everything ever queued |
| `Connection.ConnectionState.OnlySendableFinish` | server.py:2148-2239 | An empty view is first in line only for a stream with an empty chunk; no such response is ever completed; a connection that closed by itself has completed all of its responses |
| `Connection.ConnectionState.Close` | server.py:2321-2347 | Closing lets go of every response and file; a connection closed for `closing` alone has no unsent response |
| `Connection.ConnectionState.UpdateInterest` | server.py:2294-2319 | Interest follows the state, a closing connection with nothing to write is closed, and any other only if the selector refuses it |
| `Connection.ConnectionState.QueueResponse` | server.py:2088-2122 | A response is appended behind all others, numbered next; never while closing; a closing response sets `closing` and is the last one |
| `Connection.ConnectionState.MaybeQueueContinue` | server.py:2068-2086 | Queues an interim response exactly when the specification of the read side does |
| `Connection.ConnectionState.AnswerMessage` | server.py:1949-2064 | Taking a message off the buffer queues its answer, clears the remembered header ends and counts the request |
| `Connection.ConnectionState.DrainBuffer` | server.py:1893-2064 | The loop over the buffer on the real fields is the recursion of the engine specification |
| `Connection.ConnectionState.HandleRead` | server.py:1871-2066 | One read event is one step of the engine specification on data, the start of closing at end of stream, and a close on an error; otherwise only a refusal of the selector closes it early |
| `Connection.ConnectionState.SweepIdle` | server.py:2269-2292 | An idle connection that is not closing gets a 408 as its last response; a closing one is left alone |
| `Connection.ConnectionState.SendInterim` | server.py:2129-2146 | Offering an interim view moves the bytes it took from the line to the wire |
| `Connection.ConnectionState.FlushRaw` | server.py:2129-2146 | Interim bytes go first and in order and leave the responses untouched; they stay in line only if the socket would not take them |
| `Connection.ConnectionState.CloserIsLast` | server.py:2232-2239 | When a response that closes is complete, no other was ever queued behind it |
| `Connection.ConnectionState.PumpResponses` | server.py:2148-2237 | For every way the network takes bytes the loop ends, completes responses in queue order, and stops early only where the socket did or at an empty view |
| `Connection.ConnectionState.HandleWrite` | server.py:2124-2239 | A write event touches nothing on the read side; the wire grows by exactly what interim and response bytes owed shrink by; something is left for later only because the socket left some, after something was sent, or behind the empty view of a stream with an empty chunk, and there nothing more is sent |
| `Connection.ConnectionState.Shutdown` | server.py:677-678 | The end of the loop closes the connection whatever is still queued |
| `ConnectionRuns.ReadSideIsARun` | server.py:650-665 | The read side under any events is a run of reads, cut off by the first end of stream or idle sweep |
| `ConnectionRuns.ReadSideIsFold` | server.py:1871-2066 | So its answers are those of one fold over the bytes delivered, or, exactly when the buffer limit makes a difference, some of them and a 413; then a 408 exactly if the sweep ended the input of a connection still open for requests |
| `ConnectionRuns.EndingsAgree` | server.py:650-665 | However the input ends, by silence, a timeout or a close, the blocking engine answers the same, but for the 400 to a message left unfinished at a close |
| `ConnectionRuns.HandleEvents` | server.py:650-678 | From any state, for every sequence of events and every behaviour of the network: the read side takes the steps of the events; only an I/O error, a refusal of the selector or the end of the loop cuts the connection short; it gets stuck only at a stream with an empty chunk and never completes one, and once stuck it never sends another response byte |
| `ConnectionRuns.ServeConnection` | server.py:650-678 | From accept on: the answers are those of the events, the response bytes sent a prefix of their wire forms in order, all of them once the connection has closed by itself, which it does only if no answer is a stream with an empty chunk; the wire carries these and the interim bytes, each in order, and nothing else |
| `Registry.SelectorRegistry.Accept` | server.py:1823-1869 | A client is registered exactly when there is room, no drain and a handshake; the gauge stays the number of registered connections and within the maximum |
| `Registry.SelectorRegistry.Close` | server.py:2321-2347 | However often it is called, a connection is deregistered and counted closed once, also when its descriptor has been reused; the clamp of the gauge never binds |
| `Registry.SelectorRegistry.CloseAll` | server.py:676-679 | Afterwards nothing is registered, the gauge is zero and every connection was counted closed |
| `TrendStore.MemoryMetricsTrendStore.RecordRequest` | metrics_store.py:50-62 | Rows merged with pending rows stay the aggregate of the log, which grows by the sample |
| `TrendStore.MemoryMetricsTrendStore.Flush` | metrics_store.py:64-74 | Pending rows move into the rows, which become the aggregate of the log |
| `TrendStore.MemoryMetricsTrendStore.PruneOlderThan` | metrics_store.py:76-82 | Pruning rows and pending rows is removing the old minutes from the log |
| `TrendStore.MemoryMetricsTrendStore.Query` | metrics_store.py:84-95 | The answer lists the rows of the route since the horizon, once each, in the order of time, from the aggregate of the log |
| `TrendStore.SqliteMetricsTrendStore.RecordRequest` | metrics_store.py:130-142 | The same for the SQLite backend |
| `TrendStore.SqliteMetricsTrendStore.Flush` | metrics_store.py:144-177 | The upserts of the pending rows leave the table the aggregate of the log |
| `TrendStore.SqliteMetricsTrendStore.PruneOlderThan` | metrics_store.py:179-185 | Flushing and deleting on disk is removing the old minutes from the log |
| `TrendStore.SqliteMetricsTrendStore.Query` | metrics_store.py:187-213 | The same answer as the memory backend's, by specification |
| `TrendStore.PruneIsSince` | metrics_store.py:76-82 | The aggregate without the old minutes is the aggregate of the log without them |
| `TrendStore.RecordInto` | metrics_store.py:295-322 | Recording into pending rows and merging is recording into the merged rows |
| `TrendStore.SortedRows` | metrics_store.py:88-95 | Selecting and sorting gives the one list that holds exactly the matching rows in ascending minutes |
| `TrendTheorems.RunBothBackends` | metrics_store.py:42-213 | After any mix of records, flushes and prunes both backends answer every query with the same list, that of the surviving log |
| `TrendTheorems.AggregateCountsMatching` | metrics_store.py:295-313 | There is a row for exactly the keys that some sample of the log matches, and it adds up those samples |
| `TrendTheorems.RowMeaning` | metrics_store.py:308-313 | A row counts its samples, those with a status from 400 to 499 and from 500 to 599, and holds the histogram of their durations, whose buckets sum to the count |
| `TrendTheorems.SampleKey` | metrics_store.py:260-262 | A sample belongs to the whole minute it was observed in, and to its route, or to `-` without one; it is recorded there and under `__all__` |
| `TrendTheorems.WindowMeaning` | metrics_store.py:87 | A query reaches back over its window, at least sixty seconds, and not behind the epoch |
| `TrendTheorems.PrunedSamples` | metrics_store.py:76-82 | Pruning takes every sample before the cutoff out of the log, and leaves each other one as often as it was there |
| `TrendTheorems.AllIsTheSumOfRoutes` | metrics_store.py:60-62 | The `__all__` row of a minute is the sum of its route rows if and only if no request of that minute was made on a route called `__all__` |
| `TrendTheorems.AllCountsEverything` | metrics_store.py:60-62 | Its request count is the sum over the routes plus two for each such request |
| `TrendTheorems.RowPercentileNamesTheBucket` | metrics_store.py:325-337 | The percentile reported for a row is the limit of the bucket of the exact nearest-rank percentile of the durations recorded for it |
| `TrendTheorems.SummarizePoints` | metrics_store.py:241-257 | The nested loops add up counts and buckets of all points |
| `TrendTheorems.QueriedRowsAddUp` | metrics_store.py:249-255 | The rows any query lists add up to the row of the samples of its route and window |
| `TrendTheorems.QuerySummaryNamesTheBucket` | metrics_store.py:229-257 | The summary of a query counts the samples of its window and the errors among them, and its percentile is the limit of the bucket of the exact percentile of their durations |
| `TrendTheorems.SummarizeQuery` | metrics_store.py:84-95 | Querying and summarizing, on either backend, gives the row of the samples of the window |
| `Percentile.ComputePercentile` | metrics_store.py:325-337 | The percentile loop, whose meaning the lemmas below give |
| `Percentile.PercentileNamesTheBucket` | metrics_store.py:325-337 | For a histogram of any durations the loop returns the limit of the bucket that holds the exact percentile: the least duration with at least that share of all durations at or below it |
| `Percentile.NearestRankByCount` | metrics_store.py:329 | That duration stands at the rank the source computes: fewer durations than the rank lie below it, and at least as many at or below it; for a percentile above zero, the same with the share itself in place of the rank |
| `Percentile.LimitOfDuration` | metrics_store.py:287-292 | The limit reported for a duration is the least of the ten limits that is not below it, or 5001 |
| `Percentile.PercentileBrackets` | metrics_store.py:287-292 | The exact percentile is at most the returned limit (5001 stands for above 5000) and above the limit before it |
| `Percentile.PercentilesAreOrdered` | metrics_store.py:325-337 | A larger percentile never gives a smaller limit, and the last line of the loop's function is unreachable on a non-empty histogram |
| `Percentile.NearestRankExists` | metrics_store.py:329-333 | Every non-empty list has exactly one such duration for every percentile up to 100 |
| `Percentile.PrefixCounts` | metrics_store.py:287-292 | The first buckets of a histogram count the durations within their limits, and all buckets count all of them |
| `ThreadPool.RunKeepsInvariant` | thread_pool.py:53-114 | The invariant of the pool over every interleaving of submitters, workers and shutdown |
| `ThreadPool.JobsArePartitioned` | thread_pool.py:53-114 | Jobs are dequeued in acceptance order; each accepted job is queued, with exactly one worker, or finished exactly once |
| `ThreadPool.HandledAtMostOnce` | thread_pool.py:96-114 | The handler is called at most once for a job, and only for one that was dequeued |
| `ThreadPool.ActiveJobsIsExact` | thread_pool.py:106-113 | `_active_jobs` is the number of workers with a counted job, at most the number of workers, and the clamp never binds |
| `ThreadPool.DrainedJob` | thread_pool.py:93-94 | In a drained state an accepted job is finished if and only if no worker has it in hand without having counted it |
| `ThreadPool.DrainedMeans` | thread_pool.py:93-94 | In a drained state all accepted jobs are finished, each once, if and only if no worker holds an uncounted job |
| `ThreadPool.DrainedTooEarly` | thread_pool.py:62-75 | That window is real: a run after which the pool is drained and its one job has not started |
| `ThreadPool.SentinelsFollowStop` | thread_pool.py:77-91 | No sentinel is queued before the stop event is set |
| `ThreadPool.SentinelsSuffice` | thread_pool.py:77-91 | The queue never exceeds its size; sentinels never outnumber the workers, and after the stop event there is one for every worker that waits at the queue |
| `ThreadPool.AfterStop` | thread_pool.py:53-60 | Once the stop event is set it stays set, only submitters already past the check get a job in, and each waiting worker takes at most one more item |
| `ThreadPool.HowWorkersLeave` | thread_pool.py:96-114 | A worker leaves by a handler that raises, by a sentinel or by the stop event, and each of these costs the pool exactly one worker; until the stop event it is only the handlers that raise |
| `EventHub.EventHub.Publish` | event_hub.py:18-37 | The new event gets the next id and the buffer stays the last block of everything published |
| `EventHub.EventHub.GetSnapshot` | event_hub.py:39-64 | The snapshot is the one the published log determines: filtered, cut to the newest, with its overflow flag |
| `EventHub.OverflowIsExact` | event_hub.py:49-64 | The overflow flag holds if and only if the cursor is negative or an event newer than it has been evicted |
| `EventHub.SnapshotHolds` | event_hub.py:49-64 | An event is in the snapshot if and only if it is still kept, newer than the cursor and of a wanted topic, except that a positive limit leaves out the oldest of these; they come in order |
| `EventHub.ReduceEvents` | tools/scenario_runner.py:271-278 | The client's cursor after a batch of events |
| `EventHub.PollBringsTheNewest` | event_hub.py:51-57 | A poll brings the newest of the matching events published since the last one |
| `EventHub.PollKeepsInvariant` | tools/scenario_runner.py:431-443 | A poll of either client keeps the relation between its cursor, what it received, what it lost and the log |
| `EventHub.PollLosesNothing` | event_hub.py:51-57 | A poll brings all that was published since the last one if and only if nothing matching among it was evicted and the limit has room for it |
| `EventHub.ClientReceivesEverything` | tools/scenario_runner.py:431-443 | In every interleaving what the client received is in order and without repetition, and is every matching event up to its last poll if and only if that held at each of its polls |
| `EventHub.QuietRunReceivesEverything` | tools/scenario_runner.py:488-499 | If no poll reported an overflow or was cut by the limit, the client has received every matching event up to its last poll, once and in order |
| `ScenarioEngine.EvaluateExpectations` | scenario_engine.py:506-577 | One assertion per check in order, each judged on the response, and the first failed one as the reason |
| `ScenarioEngine.RunStep` | scenario_engine.py:125-191 | A step passes exactly when all its assertions do |
| `ScenarioEngine.StepPasses` | scenario_engine.py:506-577 | A step passes if and only if the status is one of those expected, every token occurs in the body, every header has its value, a missing one counting as empty, and the latency is within its limit |
| `ScenarioEngine.RunScenario` | scenario_engine.py:98-254 | Results are a prefix of the steps, all of them unless stopped at the only failure; counters, assertion total and event trace follow them; the score is 100 less 25 for each failed step, 5 for each failed assertion and a point for each whole 100 ms of the largest latency, at most 20, and not below zero; passed if and only if it is at least 80, and a failed run scores at most 70 |
| `ScenarioEngine.BottleneckLatency` | scenario_engine.py:259-268 | The largest latency of the results: it bounds all of them and is one of them, or zero if there are none |
| `ScenarioEngine.UnpassedCounts` | scenario_engine.py:170 | The assertion counter is the number of assertions that did not pass |
| `ScenarioEngine.PassedCounts` | scenario_engine.py:166 | The step counter is the number of results that passed |
| `ScenarioStore.ScenarioStore.CreateScenario` | scenario_store.py:39-53 | Taken if and only if there is room and neither id nor stripped and lowered name is known, and otherwise refused with the first of these as the reason; names stay different in that sense, whatever alphabet they are in |
| `ScenarioStore.ScenarioStore.AddRun` | scenario_store.py:79-85 | The index stays exact if and only if the run id is fresh |
| `ScenarioStore.ScenarioStore.DeleteScenario` | scenario_store.py:67-77 | Exactly the runs of the scenario go, and the index stays exact |
| `ScenarioStore.ScenarioStore.ListRunsForScenario` | scenario_store.py:87-91 | The newest runs of the scenario, newest first, at least one of them |
| `ScenarioStore.AddKeepsExactness` | scenario_store.py:79-85 | The pure statement behind `AddRun`, for any index and dictionary |
| `ScenarioStore.PopAllIds` | scenario_store.py:73-75 | Popping the indexed ids one by one takes away exactly the scenario's runs |
| `ScenarioStore.LoadRuns` | scenario_store.py:141-149 | The loop that rebuilds runs and index from the saved list |
| `ScenarioStore.ReloadGivesTheSameIndex` | scenario_store.py:117-160 | The rebuilt index lists exactly the saved runs if and only if stripping leaves every id as it is and none is blank |

## Left out

- Framer.ExtractIsStable: for a malformed verdict after a turn that looks back further than the limit leaves room for, whether a longer buffer within the limit can change it depends on what the bytes in between spell, and is not characterised.
- EngineAgreement.SameReadsSameTalk: reads that reach a minus sign are excluded, although both engines ask the same framer there too; the functions of the engines have no verdict for them.
- Engine.HandleClient: what has been written of an answer whose write fails is not modelled.
- Responses.WriteFile: the file does not change while it is sent.
- RequestParser.FromBytes: splitting of the target and its query is a parameter; the digit limit of Python's decimal `int` is its default of 4300.
- Registry.SelectorRegistry.Close: of the two gauges the source keeps in step, one is modelled.
- Connection.OutboundResponse.ReadFilePart: a file that shrinks while it is read, which the source answers by ending the response, is not modelled.
- Connection.ConnectionState.UpdateInterest: any failure of the selector is taken as the end of the connection, as the source does; which failures there are is not modelled.
- TrendStore.SqliteMetricsTrendStore.Flush: the database is a map under its primary key; transactions and failures of the database are not modelled.
- TrendStore.MemoryMetricsTrendStore.Flush: rows are values, so that the source copies a row before keeping it is not visible.
- Percentile.ComputePercentile: percentile ranks are exact integers, without the rounding of `total * (percentile / 100)` in floating point.
- ThreadPool.RunKeepsInvariant: the pool is a transition system and not a class, because its property is about interleavings; that shutdown ends, or that queued jobs run before it, is not claimed, since the source does not promise it.
- EventHub.PollKeepsInvariant: the key that sets the curses client's cursor back to zero, failed polls, and the panels the client fills are left out.
- ScenarioEngine.RunScenario: responses and latencies of the steps are a parameter, so target dispatch and chaos are inside it; latencies are exact reals without rounding; the texts of the analysis are left out.
- ScenarioStore.LoadRuns: the JSON file, corrupt files and entries that are not dictionaries are left out; so is `update_scenario`.
- Route dispatch, authentication, incident profiles, proxying, trace ids, and the `Connection` and `Keep-Alive` response headers: inside the response a handler gives; handlers may override those headers.
- The `inflight_requests` gauge: a connection closed with responses still queued does not report them finished, so there is no exact invariant.
- TLS, dates, gzip, MIME types, the dashboards, the command line and the load generator.

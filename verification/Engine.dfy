/** The read side of both engines of `server.py`, and the fold over the byte stream they refine. */
module Engine {
  import opened Wrappers
  import opened ByteStrings
  import opened Framer
  import RequestParser
  import Chunked

  const MAX_KEEPALIVE_REQUESTS := 1000
  const SELECTOR_READ := 8192
  const BLOCKING_READ := 4096

  /** What the server decides to answer. The response itself is an arbitrary function of it:
      handlers, header decoration and trace ids are outside the model. `ordinal` counts the
      requests of the connection from 1. */
  datatype Answer =
    | Served(request: RequestParser.HTTPRequest, ordinal: nat, close: bool)
    | Draining(request: RequestParser.HTTPRequest, ordinal: nat)
    | Rejected(status: nat)

  predicate CloseAfter(a: Answer) { a.Served? ==> a.close }

  function ReadStatus(e: ReadError): nat {
    match e
    case HeaderTooLarge => 431
    case PayloadTooLarge => 413
    case Malformed => 400
  }

  /** The environment: the URL library, and whether the server is draining when it comes to the
      given request of this connection. */
  datatype Env = Env(urlsplit: RequestParser.UrlSplit, draining: nat -> bool)

  /** The answer to one framed message, the `served + 1`st of its connection. */
  function AnswerTo(env: Env, raw: Bytes, served: nat): Answer {
    match RequestParser.Parse(raw, env.urlsplit)
    case Err(e) => Rejected(RequestParser.StatusOf(e))
    case Ok(request) =>
      if env.draining(served + 1) && served > 0 then Draining(request, served + 1)
      else Served(request, served + 1, !request.keepAlive || served + 1 >= MAX_KEEPALIVE_REQUESTS)
  }

  lemma KeptOpenIsBelowTheLimit(env: Env, raw: Bytes, served: nat)
    ensures !CloseAfter(AnswerTo(env, raw, served)) ==> served + 1 < MAX_KEEPALIVE_REQUESTS
  {}

  /** What both engines do with one framed message. */
  method AnswerRequest(env: Env, raw: Bytes, served: nat) returns (answer: Answer)
    requires Verdict(raw) == Message(|raw|)
    ensures answer == AnswerTo(env, raw, served)
  {
    hide RequestParser.Parse;
    RequestParser.FramedMessagesAreUnsigned(raw, env.urlsplit);
    RequestParser.UnsignedHalts(raw, env.urlsplit);
    var parsed := RequestParser.FromBytes(raw, env.urlsplit);
    if parsed.Err? { return Rejected(RequestParser.StatusOf(parsed.error)); }
    var request := parsed.value;
    var ordinal := served + 1;
    if env.draining(ordinal) && ordinal > 1 { return Draining(request, ordinal); }
    var shouldClose := !request.keepAlive || ordinal >= MAX_KEEPALIVE_REQUESTS;
    return Served(request, ordinal, shouldClose);
  }

  // ----- the specification: one recursive fold over the whole stream -----

  datatype Folded = Folded(answers: seq<Answer>, closed: bool, rest: Bytes, served: nat)

  function Fold(env: Env, stream: Bytes, served: nat): Folded
    decreases |stream|
  {
    match Verdict(stream)
    case Failed(e) => Folded([Rejected(ReadStatus(e))], true, stream, served)
    case Message(n) =>
      MessageFits(stream);
      var answer := AnswerTo(env, stream[..n], served);
      if CloseAfter(answer) then Folded([answer], true, stream[n..], served + 1)
      else
        var f := Fold(env, stream[n..], served + 1);
        f.(answers := [answer] + f.answers)
    case _ => Folded([], false, stream, served)
  }

  /** No size with a minus sign is reached in the stream. Where one is, the functions of this
      module wait for more, which says nothing about the source; the theorems about streams and
      reads exclude it. */
  predicate UnsignedStream(env: Env, stream: Bytes, served: nat) {
    var f := Fold(env, stream, served);
    f.closed || Verdict(f.rest).Incomplete?
  }

  /** The same for the buffers held while `pieces` are read. */
  predicate Unsigned(env: Env, buffer: Bytes, served: nat, pieces: seq<Bytes>)
    decreases |pieces|, |buffer|
  {
    match Extract(buffer)
    case SignedSize => false
    case Failed(_) => true
    case Message(n) =>
      ExtractFits(buffer);
      CloseAfter(AnswerTo(env, buffer[..n], served)) || Unsigned(env, buffer[n..], served + 1, pieces)
    case Incomplete => pieces == [] || Unsigned(env, buffer + pieces[0], served, pieces[1..])
  }

  lemma UnsignedStep(env: Env, buffer: Bytes, served: nat, pieces: seq<Bytes>)
    requires Unsigned(env, buffer, served, pieces)
    ensures !Extract(buffer).SignedSize?
    ensures Extract(buffer).Message? ==>
              var n := Extract(buffer).length;
              n <= |buffer|
              && (CloseAfter(AnswerTo(env, buffer[..n], served)) || Unsigned(env, buffer[n..], served + 1, pieces))
    ensures Extract(buffer).Incomplete? && pieces != [] ==> Unsigned(env, buffer + pieces[0], served, pieces[1..])
  {
    hide Extract, AnswerTo;
    if Extract(buffer).Message? { ExtractFits(buffer); }
  }

  lemma {:induction false} UnsignedFewer(env: Env, buffer: Bytes, served: nat, pieces: seq<Bytes>)
    requires Unsigned(env, buffer, served, pieces)
    ensures Unsigned(env, buffer, served, [])
    decreases |buffer|
  {
    hide Extract, AnswerTo;
    UnsignedStep(env, buffer, served, pieces);
    if Extract(buffer).Message? {
      ExtractFits(buffer);
      var n := Extract(buffer).length;
      if !CloseAfter(AnswerTo(env, buffer[..n], served)) { UnsignedFewer(env, buffer[n..], served + 1, pieces); }
    }
  }

  /** However an unsigned stream is cut, no read of it reaches a minus sign. */
  lemma {:induction false} UnsignedStreamUnsignedReads(env: Env, held: Bytes, served: nat, pieces: seq<Bytes>)
    requires UnsignedStream(env, held + Flatten(pieces), served)
    ensures Unsigned(env, held, served, pieces)
    decreases |pieces|, |held|
  {
    hide Verdict, AnswerTo;
    var stream := held + Flatten(pieces);
    if |held| <= MAX_REQUEST_BYTES {
      GuardIsQuiet(held);
      if !Verdict(held).Incomplete? { SeenVerdictIsStable(held, stream); }
      match Verdict(held)
      case SignedSize =>
      case Failed(e) =>
      case Message(n) =>
        MessageFits(held);
        assert stream[..n] == held[..n] && stream[n..] == held[n..] + Flatten(pieces);
        if !CloseAfter(AnswerTo(env, held[..n], served)) {
          UnsignedStreamUnsignedReads(env, held[n..], served + 1, pieces);
        }
      case Incomplete =>
        if pieces != [] {
          assert stream == held + pieces[0] + Flatten(pieces[1..]);
          UnsignedStreamUnsignedReads(env, held + pieces[0], served, pieces[1..]);
        }
    }
  }

  lemma Reassociate(a: seq<Answer>, b: seq<Answer>, c: seq<Answer>)
    ensures a + b + c == a + (b + c)
  {}

  /** Folding a longer stream starts with folding the shorter one. */
  lemma {:induction false} FoldExtends(env: Env, b: Bytes, more: Bytes, served: nat)
    ensures var f := Fold(env, b, served);
            && (f.closed ==> Fold(env, b + more, served).closed && Fold(env, b + more, served).answers == f.answers)
            && (!f.closed ==> var g := Fold(env, f.rest + more, f.served);
                              Fold(env, b + more, served) == g.(answers := f.answers + g.answers))
    decreases |b|
  {
    hide Verdict, AnswerTo;
    match Verdict(b)
    case Failed(e) =>
      SeenVerdictIsStable(b, b + more);
    case Message(n) =>
      MessageFits(b);
      SeenVerdictIsStable(b, b + more);
      assert (b + more)[..n] == b[..n] && (b + more)[n..] == b[n..] + more;
      var answer := AnswerTo(env, b[..n], served);
      if !CloseAfter(answer) {
        FoldExtends(env, b[n..], more, served + 1);
        var f := Fold(env, b[n..], served + 1);
        if !f.closed {
          var g := Fold(env, f.rest + more, f.served);
          Reassociate([answer], f.answers, g.answers);
        }
      }
    case _ =>
      var g := Fold(env, b + more, served);
      assert [] + g.answers == g.answers;
  }

  /** A fold that does not close stops where no message is complete. */
  predicate Waits(b: Bytes) { Verdict(b).Incomplete? || Verdict(b).SignedSize? }

  lemma {:induction false} FoldLeavesIncomplete(env: Env, b: Bytes, served: nat)
    ensures var f := Fold(env, b, served);
            |f.rest| <= |b| && (!f.closed ==> Waits(f.rest) && f.served == served + |f.answers|)
    decreases |b|
  {
    hide Verdict, AnswerTo;
    if Verdict(b).Message? {
      MessageFits(b);
      var n := Verdict(b).length;
      if !CloseAfter(AnswerTo(env, b[..n], served)) { FoldLeavesIncomplete(env, b[n..], served + 1); }
    }
  }

  lemma FoldOfIncomplete(env: Env, b: Bytes, served: nat)
    requires Waits(b)
    ensures Fold(env, b, served) == Folded([], false, b, served)
  {}

  // ----- the selectors engine -----

  /** The fields of `ConnectionState` the read handler works on. `interim` logs, for each
      `100 Continue` queued, how many requests had been served before. */
  datatype ReadState = ReadState(
    buffer: Bytes, served: nat, closing: bool, answers: seq<Answer>, continueSent: set<nat>, interim: seq<nat>)

  const START := ReadState([], 0, false, [], {}, [])

  /** `_maybe_queue_continue` */
  function MaybeContinue(s: ReadState): ReadState {
    var head := InspectHead(s.buffer);
    if head.HeadInfo? && head.expectContinue && (head.chunked || head.expectedLength != 0)
       && head.headerEnd !in s.continueSent
    then s.(continueSent := s.continueSent + {head.headerEnd}, interim := s.interim + [s.served])
    else s
  }

  lemma ExtractFits(buffer: Bytes)
    requires Extract(buffer).Message?
    ensures Extract(buffer) == Verdict(buffer) && 4 <= Extract(buffer).length <= |buffer|
  {
    MessageFits(buffer);
  }

  /** The state once the message of length `n` at the front of the buffer has been answered. */
  function Answered(s: ReadState, n: nat, answer: Answer): ReadState
    requires n <= |s.buffer|
  {
    s.(buffer := s.buffer[n..], continueSent := {}, answers := s.answers + [answer],
       served := if answer.Rejected? then s.served else s.served + 1, closing := CloseAfter(answer))
  }

  /** The inner loop of `_handle_selector_read`. */
  function Drain(env: Env, s: ReadState): ReadState
    decreases |s.buffer|
  {
    match Extract(s.buffer)
    case Failed(e) => s.(answers := s.answers + [Rejected(ReadStatus(e))], closing := true)
    case Message(n) =>
      ExtractFits(s.buffer);
      var answer := AnswerTo(env, s.buffer[..n], s.served);
      if CloseAfter(answer) then Answered(s, n, answer) else Drain(env, Answered(s, n, answer))
    case _ => MaybeContinue(s)
  }

  lemma {:induction false} UnsignedDrain(env: Env, s: ReadState, pieces: seq<Bytes>)
    requires Unsigned(env, s.buffer, s.served, pieces) && !s.closing
    ensures var d := Drain(env, s);
            !d.closing ==> Extract(d.buffer).Incomplete? && Unsigned(env, d.buffer, d.served, pieces)
    decreases |s.buffer|
  {
    hide Extract, AnswerTo, MaybeContinue, Unsigned;
    UnsignedStep(env, s.buffer, s.served, pieces);
    MaybeContinueKeeps(s);
    if Extract(s.buffer).Message? {
      ExtractFits(s.buffer);
      var n := Extract(s.buffer).length;
      var answer := AnswerTo(env, s.buffer[..n], s.served);
      KeptOpenIsServed(env, s.buffer[..n], s.served);
      if !CloseAfter(answer) { UnsignedDrain(env, Answered(s, n, answer), pieces); }
    }
  }

  lemma KeptOpenIsServed(env: Env, raw: Bytes, served: nat)
    ensures !CloseAfter(AnswerTo(env, raw, served)) ==> AnswerTo(env, raw, served).Served?
  {}

  /** One read event that delivers `chunk`. */
  function ReadEvent(env: Env, s: ReadState, chunk: Bytes): ReadState {
    Drain(env, s.(buffer := s.buffer + chunk))
  }

  /** A run of read events; a closing connection is no longer registered for reading. */
  function SelectorRun(env: Env, s: ReadState, pieces: seq<Bytes>): ReadState
    decreases |pieces|
  {
    if pieces == [] || s.closing then s else SelectorRun(env, ReadEvent(env, s, pieces[0]), pieces[1..])
  }

  /** The bytes held after each read stay within `limit`. */
  predicate WithinLimit(env: Env, held: Bytes, served: nat, pieces: seq<Bytes>, limit: nat)
    decreases |pieces|
  {
    pieces == []
    || (var f := Fold(env, held + pieces[0], served);
        |held + pieces[0]| <= limit && (f.closed || WithinLimit(env, f.rest, f.served, pieces[1..], limit)))
  }

  lemma {:induction false} DrainIsFold(env: Env, s: ReadState)
    requires !s.closing && |s.buffer| <= MAX_REQUEST_BYTES
    ensures var d, f := Drain(env, s), Fold(env, s.buffer, s.served);
            && d.answers == s.answers + f.answers && d.closing == f.closed
            && (!f.closed ==> d.buffer == f.rest && d.served == f.served)
    decreases |s.buffer|
  {
    hide Verdict, Extract, AnswerTo, MaybeContinue;
    GuardIsQuiet(s.buffer);
    MaybeContinueKeeps(s);
    if Verdict(s.buffer).Message? {
      MessageFits(s.buffer);
      var n := Verdict(s.buffer).length;
      var answer := AnswerTo(env, s.buffer[..n], s.served);
      if !CloseAfter(answer) {
        var next := Answered(s, n, answer);
        DrainIsFold(env, next);
        var f := Fold(env, next.buffer, next.served);
        Reassociate(s.answers, [answer], f.answers);
      }
    }
  }

  lemma MaybeContinueKeeps(s: ReadState)
    ensures MaybeContinue(s).(continueSent := s.continueSent, interim := s.interim) == s
  {}

  lemma GuardIsQuiet(b: Bytes)
    requires |b| <= MAX_REQUEST_BYTES
    ensures Extract(b) == Verdict(b)
  {}

  // ----- a read that takes the buffer over the limit -----

  /** The fold, which has no limit, answers the message at the front with a plain 413 too. */
  predicate FrontIsTooLarge(env: Env, stream: Bytes, served: nat) {
    match Verdict(stream)
    case Failed(e) => e.PayloadTooLarge?
    case Message(n) => MessageFits(stream); AnswerTo(env, stream[..n], served) == Rejected(413)
    case _ => false
  }

  lemma FrontDecides(env: Env, stream: Bytes, served: nat)
    ensures var f := Fold(env, stream, served);
            if FrontIsTooLarge(env, stream, served) then f.answers == [Rejected(413)] && f.closed
            else f.answers == [] || f.answers[0] != Rejected(413)
  {
    hide AnswerTo;
  }

  /** Some read takes the buffer over the limit, and the message then at the front is too large
      for the fold as well. */
  predicate RefusedAnyway(env: Env, held: Bytes, served: nat, pieces: seq<Bytes>)
    decreases |pieces|
  {
    pieces != []
    && var b := held + pieces[0];
       if |b| > MAX_REQUEST_BYTES then FrontIsTooLarge(env, held + Flatten(pieces), served)
       else
         var f := Fold(env, b, served);
         !f.closed && RefusedAnyway(env, f.rest, f.served, pieces[1..])
  }

  /** How many requests have been served when a read takes the buffer over the limit although the
      message then at the front is not too large; `None` if that never happens. */
  function CutShortAt(env: Env, held: Bytes, served: nat, pieces: seq<Bytes>): Option<nat>
    decreases |pieces|
  {
    if pieces == [] then None
    else
      var b := held + pieces[0];
      if |b| > MAX_REQUEST_BYTES then
        if FrontIsTooLarge(env, held + Flatten(pieces), served) then None else Some(served)
      else
        var f := Fold(env, b, served);
        if f.closed then None else CutShortAt(env, f.rest, f.served, pieces[1..])
  }

  lemma {:induction false} NotCutShort(env: Env, held: Bytes, served: nat, pieces: seq<Bytes>)
    ensures CutShortAt(env, held, served, pieces).None?
            <==> WithinLimit(env, held, served, pieces, MAX_REQUEST_BYTES) || RefusedAnyway(env, held, served, pieces)
    decreases |pieces|
  {
    hide Fold, FrontIsTooLarge;
    if pieces != [] {
      var b := held + pieces[0];
      var f := Fold(env, b, served);
      if |b| <= MAX_REQUEST_BYTES && !f.closed { NotCutShort(env, f.rest, f.served, pieces[1..]); }
    }
  }

  lemma DrainOverTheLimit(env: Env, s: ReadState)
    requires |s.buffer| > MAX_REQUEST_BYTES
    ensures Drain(env, s) == s.(answers := s.answers + [Rejected(413)], closing := true)
  {}

  /** A run that has not been cut short is where the fold is. */
  predicate InStep(d: ReadState, before: seq<Answer>, f: Folded) {
    && d.answers == before + f.answers && d.closing == f.closed
    && (!f.closed ==> d.buffer == f.rest && d.served == f.served)
  }

  /** A run that has been cut short has given `k` of the fold's answers and then refused what the
      fold does not. */
  predicate StoppedAfter(d: ReadState, before: seq<Answer>, f: Folded, k: nat) {
    && k <= |f.answers| && (k < |f.answers| ==> f.answers[k] != Rejected(413))
    && d.answers == before + (f.answers[..k] + [Rejected(413)]) && d.closing
  }

  lemma InStepAfter(d: ReadState, before: seq<Answer>, first: seq<Answer>, g: Folded)
    requires InStep(d, before + first, g)
    ensures InStep(d, before, g.(answers := first + g.answers))
  {
    Reassociate(before, first, g.answers);
  }

  lemma StoppedAfterMore(d: ReadState, before: seq<Answer>, first: seq<Answer>, g: Folded, k: nat)
    requires StoppedAfter(d, before + first, g, k)
    ensures StoppedAfter(d, before, g.(answers := first + g.answers), |first| + k)
  {
    assert (first + g.answers)[..|first| + k] == first + g.answers[..k];
    Reassociate(before, first, g.answers[..k] + [Rejected(413)]);
    Reassociate(first, g.answers[..k], [Rejected(413)]);
  }

  /** The whole truth about a run of reads, within the limit or not. */
  lemma {:induction false} RunIsFold(env: Env, s: ReadState, pieces: seq<Bytes>)
    requires !s.closing && Waits(s.buffer)
    ensures var d, f := SelectorRun(env, s, pieces), Fold(env, s.buffer + Flatten(pieces), s.served);
            match CutShortAt(env, s.buffer, s.served, pieces)
            case None => InStep(d, s.answers, f)
            case Some(k) => k >= s.served && StoppedAfter(d, s.answers, f, k - s.served)
    decreases |pieces|
  {
    hide Verdict, Drain, Fold, FrontIsTooLarge, InStep, StoppedAfter;
    if pieces == [] {
      NoReads(env, s);
    } else {
      var held, more := s.buffer + pieces[0], Flatten(pieces[1..]);
      assert s.buffer + Flatten(pieces) == held + more;
      if |held| > MAX_REQUEST_BYTES {
        ReadOverTheLimit(env, s, pieces);
      } else {
        var f, d := Fold(env, held, s.served), ReadEvent(env, s, pieces[0]);
        ReadInStep(env, s, pieces[0], more);
        if !f.closed {
          RunIsFold(env, d, pieces[1..]);
          var g := Fold(env, f.rest + more, f.served);
          match CutShortAt(env, d.buffer, d.served, pieces[1..])
          case None =>
            InStepAfter(SelectorRun(env, d, pieces[1..]), s.answers, f.answers, g);
          case Some(k) =>
            StoppedAfterMore(SelectorRun(env, d, pieces[1..]), s.answers, f.answers, g, k - d.served);
        }
      }
    }
  }

  lemma NoReads(env: Env, s: ReadState)
    requires !s.closing && Waits(s.buffer)
    ensures InStep(SelectorRun(env, s, []), s.answers, Fold(env, s.buffer + Flatten([]), s.served))
  {
    hide Verdict;
    FoldOfIncomplete(env, s.buffer, s.served);
    assert s.answers + [] == s.answers;
    assert s.buffer + Flatten([]) == s.buffer;
  }

  lemma ReadOverTheLimit(env: Env, s: ReadState, pieces: seq<Bytes>)
    requires !s.closing && pieces != [] && |s.buffer + pieces[0]| > MAX_REQUEST_BYTES
    ensures var d, stream := SelectorRun(env, s, pieces), s.buffer + Flatten(pieces);
            if FrontIsTooLarge(env, stream, s.served) then InStep(d, s.answers, Fold(env, stream, s.served))
            else StoppedAfter(d, s.answers, Fold(env, stream, s.served), 0)
  {
    hide Verdict, Fold, FrontIsTooLarge, Drain;
    FrontDecides(env, s.buffer + Flatten(pieces), s.served);
    DrainOverTheLimit(env, s.(buffer := s.buffer + pieces[0]));
    ClosedRunStops(env, ReadEvent(env, s, pieces[0]), pieces[1..]);
    assert [] + [Rejected(413)] == [Rejected(413)];
    assert Fold(env, s.buffer + Flatten(pieces), s.served).answers[..0] == [];
  }

  lemma ClosedRunStops(env: Env, s: ReadState, pieces: seq<Bytes>)
    ensures s.closing || pieces == [] ==> SelectorRun(env, s, pieces) == s
  {}

  /** One read within the limit, seen from the whole stream. */
  lemma ReadInStep(env: Env, s: ReadState, piece: Bytes, more: Bytes)
    requires !s.closing && |s.buffer + piece| <= MAX_REQUEST_BYTES
    ensures var held, d := s.buffer + piece, ReadEvent(env, s, piece);
            var f, whole := Fold(env, held, s.served), Fold(env, held + more, s.served);
            if f.closed then d.closing && InStep(d, s.answers, whole)
            else
              && !d.closing && d.buffer == f.rest && d.served == f.served && d.answers == s.answers + f.answers
              && Waits(f.rest) && f.served == s.served + |f.answers|
              && whole == (var g := Fold(env, f.rest + more, f.served); g.(answers := f.answers + g.answers))
  {
    hide Verdict, Drain, Fold;
    DrainIsFold(env, s.(buffer := s.buffer + piece));
    FoldExtends(env, s.buffer + piece, more, s.served);
    FoldLeavesIncomplete(env, s.buffer + piece, s.served);
  }

  /** Main result: however the stream is cut into reads, the selectors engine dispatches the same
      requests and decides on the same answers as one fold over the whole stream, if and only if no
      read takes the buffer over the limit, or the one that does finds a message at the front that
      the fold answers with 413 as well. */
  lemma SelectorRefinesFold(env: Env, pieces: seq<Bytes>)
    requires UnsignedStream(env, Flatten(pieces), 0)
    ensures var d, f := SelectorRun(env, START, pieces), Fold(env, Flatten(pieces), 0);
            var quiet := WithinLimit(env, [], 0, pieces, MAX_REQUEST_BYTES) || RefusedAnyway(env, [], 0, pieces);
            && (d.answers == f.answers <==> quiet)
            && (quiet ==> d.closing == f.closed && (!f.closed ==> d.buffer == f.rest && d.served == f.served))
  {
    hide Fold, SelectorRun, WithinLimit, RefusedAnyway, CutShortAt;
    RunUnderTheGuard(env, pieces);
    NotCutShort(env, [], 0, pieces);
  }

  /** What is answered when a read does take the buffer over the limit: some of the fold's answers,
      and then 413 in place of the next. */
  lemma RunUnderTheGuard(env: Env, pieces: seq<Bytes>)
    requires UnsignedStream(env, Flatten(pieces), 0)
    ensures var d, f := SelectorRun(env, START, pieces), Fold(env, Flatten(pieces), 0);
            match CutShortAt(env, [], 0, pieces)
            case None =>
              d.answers == f.answers && d.closing == f.closed
              && (!f.closed ==> d.buffer == f.rest && d.served == f.served)
            case Some(k) =>
              k <= |f.answers| && d.answers == f.answers[..k] + [Rejected(413)] && d.answers != f.answers && d.closing
  {
    hide Fold, SelectorRun, CutShortAt;
    EmptyIsIncomplete();
    RunIsFold(env, START, pieces);
    assert [] + Flatten(pieces) == Flatten(pieces);
    var f := Fold(env, Flatten(pieces), 0);
    assert [] + f.answers == f.answers;
    match CutShortAt(env, [], 0, pieces)
    case None =>
    case Some(k) =>
      assert [] + (f.answers[..k] + [Rejected(413)]) == f.answers[..k] + [Rejected(413)];
      assert (f.answers[..k] + [Rejected(413)])[k] == Rejected(413);
  }

  // ----- the blocking engine -----

  datatype ReadResult =
    | Got(raw: Bytes, carry: Bytes, pieces: seq<Bytes>)
    | Refused(error: ReadError)
    | Waiting(buffer: Bytes)

  /** `read_http_request_message` on a peer that sends `pieces` and then is silent. */
  function ReadMessage(buffer: Bytes, pieces: seq<Bytes>): (r: ReadResult)
    ensures r.Got? ==> |r.pieces| <= |pieces|
    decreases |pieces|
  {
    match Extract(buffer)
    case Message(n) => ExtractFits(buffer); Got(buffer[..n], buffer[n..], pieces)
    case Failed(e) => Refused(e)
    case _ => if pieces == [] then Waiting(buffer) else ReadMessage(buffer + pieces[0], pieces[1..])
  }

  /** No buffer held while one message is read reaches a minus sign. */
  predicate UnsignedRead(buffer: Bytes, pieces: seq<Bytes>)
    decreases |pieces|
  {
    !Extract(buffer).SignedSize?
    && (Extract(buffer).Incomplete? && pieces != [] ==> UnsignedRead(buffer + pieces[0], pieces[1..]))
  }

  lemma {:induction false} UnsignedReadsOn(env: Env, carry: Bytes, count: nat, pieces: seq<Bytes>)
    requires Unsigned(env, carry, count, pieces)
    ensures UnsignedRead(carry, pieces)
    ensures var r := ReadMessage(carry, pieces);
            && (r.Got? ==> Verdict(r.raw) == Message(|r.raw|))
            && (r.Got? && !CloseAfter(AnswerTo(env, r.raw, count)) ==> Unsigned(env, r.carry, count + 1, r.pieces))
    decreases |pieces|
  {
    hide AnswerTo, Verdict, Extract;
    if Extract(carry).Message? {
      ExtractFits(carry);
      MessageAlone(carry);
    } else if Extract(carry).Incomplete? && pieces != [] {
      UnsignedReadsOn(env, carry + pieces[0], count, pieces[1..]);
    }
  }

  /** The head of an unfinished message asks for `100 Continue` and its body is not complete. */
  predicate AsksToContinue(buffer: Bytes) {
    var head := InspectHead(buffer);
    head.HeadInfo? && head.expectContinue && head.headerEnd + 4 <= |buffer|
    && if head.chunked then !Chunked.Frame(buffer[head.headerEnd + 4..]).Complete?
       else |buffer| < head.headerEnd + 4 + head.expectedLength
  }

  /** Whether `read_http_request_message` calls back for `100 Continue`. */
  predicate ReadContinues(buffer: Bytes, pieces: seq<Bytes>)
    decreases |pieces|
  {
    Extract(buffer).Incomplete?
    && (AsksToContinue(buffer) || (pieces != [] && ReadContinues(buffer + pieces[0], pieces[1..])))
  }

  method ReadHttpRequestMessage(initial: Bytes, pieces: seq<Bytes>) returns (r: ReadResult, continueSent: bool)
    requires UnsignedRead(initial, pieces)
    ensures r == ReadMessage(initial, pieces)
    ensures continueSent == ReadContinues(initial, pieces)
  {
    hide Extract, AsksToContinue;
    var buffer := initial;
    var next := 0;
    continueSent := false;
    while true
      invariant next <= |pieces| && UnsignedRead(buffer, pieces[next..])
      invariant ReadContinues(initial, pieces) == (continueSent || ReadContinues(buffer, pieces[next..]))
      invariant ReadMessage(initial, pieces) == ReadMessage(buffer, pieces[next..])
      decreases |pieces| - next
    {
      UnsignedHalts(buffer);
      var extracted := ExtractMessage(buffer);
      match extracted {
        case Message(n) =>
          ExtractFits(buffer);
          return Got(buffer[..n], buffer[n..], pieces[next..]), continueSent;
        case Failed(e) => return Refused(e), continueSent;
        case Incomplete =>
      }
      if !continueSent && AsksToContinue(buffer) { continueSent := true; }
      if next == |pieces| { return Waiting(buffer), continueSent; }
      assert pieces[next..][1..] == pieces[next + 1..];
      buffer := buffer + pieces[next];
      next := next + 1;
    }
  }

  /** `_handle_client` from the moment `count` requests have been answered. */
  function BlockingRun(env: Env, carry: Bytes, count: nat, pieces: seq<Bytes>): Folded
    decreases MAX_KEEPALIVE_REQUESTS - count
  {
    if count >= MAX_KEEPALIVE_REQUESTS then Folded([], true, carry, count)
    else
      match ReadMessage(carry, pieces)
      case Waiting(buffer) => Folded([], false, buffer, count)
      case Refused(e) => Folded([Rejected(ReadStatus(e))], true, carry, count)
      case Got(raw, carry', pieces') =>
        var answer := AnswerTo(env, raw, count);
        if CloseAfter(answer) then Folded([answer], true, carry', count + 1)
        else
          var f := BlockingRun(env, carry', count + 1, pieces');
          f.(answers := [answer] + f.answers)
  }

  /** For each `100 Continue` it sends, how many requests had been answered before. `sent` tells
      that the request being read has had its own. */
  function BlockingInterim(env: Env, carry: Bytes, count: nat, sent: bool, pieces: seq<Bytes>): seq<nat>
    decreases MAX_KEEPALIVE_REQUESTS - count
  {
    if count >= MAX_KEEPALIVE_REQUESTS then []
    else
      var here := if !sent && ReadContinues(carry, pieces) then [count] else [];
      match ReadMessage(carry, pieces)
      case Got(raw, carry', pieces') =>
        if CloseAfter(AnswerTo(env, raw, count)) then here
        else here + BlockingInterim(env, carry', count + 1, false, pieces')
      case _ => here
  }

  /** How the peer ends what it sends: it falls silent, closes, lets the socket time out, or the
      socket fails. */
  datatype LastRead = Silence | EndOfStream | TimeOut | ReadError

  /** What is answered to the last read when `buffer` is held. */
  function LastWords(last: LastRead, buffer: Bytes): seq<Answer> {
    match last
    case Silence => []
    case EndOfStream => if buffer == [] then [] else [Rejected(400)]
    case TimeOut => [Rejected(408)]
    case ReadError => []
  }

  /** The answers of the blocking engine to a peer that sends `pieces` and then ends. */
  function BlockingAnswers(env: Env, pieces: seq<Bytes>, last: LastRead): seq<Answer> {
    var d := BlockingRun(env, [], 0, pieces);
    if d.closed then d.answers else d.answers + LastWords(last, d.rest)
  }

  /** Which writes the socket takes: the interim response to each request, and the answer to it. */
  datatype Writes = Writes(interim: nat -> bool, final: nat -> bool)

  datatype Outcome = Outcome(answers: seq<Answer>, interim: seq<nat>, closed: bool)

  function Then(answers: seq<Answer>, interim: seq<nat>, o: Outcome): Outcome {
    o.(answers := answers + o.answers, interim := interim + o.interim)
  }

  /** What `_handle_client` does from the moment `count` requests have been answered. The answer whose
      write fails is the last one it decides on. */
  function Serve(env: Env, carry: Bytes, count: nat, pieces: seq<Bytes>, last: LastRead, w: Writes): Outcome
    decreases MAX_KEEPALIVE_REQUESTS - count
  {
    if count >= MAX_KEEPALIVE_REQUESTS then Outcome([], [], true)
    else
      var asks := ReadContinues(carry, pieces);
      var here := if asks then [count] else [];
      if asks && !w.interim(count) then Outcome([], here, true)
      else
        match ReadMessage(carry, pieces)
        case Waiting(buffer) => Outcome(LastWords(last, buffer), here, last != Silence)
        case Refused(e) => Outcome([Rejected(ReadStatus(e))], here, true)
        case Got(raw, carry', pieces') =>
          var answer := AnswerTo(env, raw, count);
          if CloseAfter(answer) || !w.final(count) then Outcome([answer], here, true)
          else Then([answer], here, Serve(env, carry', count + 1, pieces', last, w))
  }

  lemma ThenTwice(a: seq<Answer>, i: seq<nat>, b: seq<Answer>, j: seq<nat>, o: Outcome)
    ensures Then(a, i, Then(b, j, o)) == Then(a + b, i + j, o)
  {
    assert a + (b + o.answers) == a + b + o.answers && i + (j + o.interim) == i + j + o.interim;
  }

  /** While the socket takes everything, that is the run, its interim responses and the last words. */
  lemma {:induction false} ServedInFull(env: Env, carry: Bytes, count: nat, pieces: seq<Bytes>, last: LastRead,
                                        w: Writes)
    requires forall k :: w.interim(k) && w.final(k)
    ensures var d, o := BlockingRun(env, carry, count, pieces), Serve(env, carry, count, pieces, last, w);
            && o.answers == d.answers + (if d.closed then [] else LastWords(last, d.rest))
            && o.interim == BlockingInterim(env, carry, count, false, pieces)
            && o.closed == (d.closed || last != Silence)
    decreases MAX_KEEPALIVE_REQUESTS - count
  {
    hide ReadMessage, ReadContinues, AnswerTo, LastWords;
    if count < MAX_KEEPALIVE_REQUESTS && ReadMessage(carry, pieces).Got? {
      var got := ReadMessage(carry, pieces);
      if !CloseAfter(AnswerTo(env, got.raw, count)) {
        ServedInFull(env, got.carry, count + 1, got.pieces, last, w);
        var d := BlockingRun(env, got.carry, count + 1, got.pieces);
        Reassociate([AnswerTo(env, got.raw, count)], d.answers, if d.closed then [] else LastWords(last, d.rest));
      }
    }
  }

  /** A write that fails only cuts it short. */
  lemma {:induction false} ServedIsAPrefix(env: Env, carry: Bytes, count: nat, pieces: seq<Bytes>, last: LastRead,
                                           w: Writes, w': Writes)
    requires forall k :: w'.interim(k) && w'.final(k)
    ensures var o, all := Serve(env, carry, count, pieces, last, w), Serve(env, carry, count, pieces, last, w');
            o.answers <= all.answers && o.interim <= all.interim
    decreases MAX_KEEPALIVE_REQUESTS - count
  {
    hide ReadMessage, ReadContinues, AnswerTo, LastWords;
    if count < MAX_KEEPALIVE_REQUESTS && ReadMessage(carry, pieces).Got? {
      var got := ReadMessage(carry, pieces);
      ServedIsAPrefix(env, got.carry, count + 1, got.pieces, last, w, w');
    }
  }

  const ALL_WRITES := Writes(_ => true, _ => true)

  lemma ServedAgainstTheRun(env: Env, pieces: seq<Bytes>, last: LastRead, w: Writes)
    ensures var o := Serve(env, [], 0, pieces, last, w);
            && o.answers <= BlockingAnswers(env, pieces, last)
            && o.interim <= BlockingInterim(env, [], 0, false, pieces)
            && ((forall k :: w.interim(k) && w.final(k)) ==>
                  && o.answers == BlockingAnswers(env, pieces, last)
                  && o.interim == BlockingInterim(env, [], 0, false, pieces)
                  && o.closed == (BlockingRun(env, [], 0, pieces).closed || last != Silence))
  {
    hide Serve, BlockingRun, BlockingInterim, LastWords;
    ServedInFull(env, [], 0, pieces, last, ALL_WRITES);
    ServedIsAPrefix(env, [], 0, pieces, last, w, ALL_WRITES);
    if forall k :: w.interim(k) && w.final(k) { ServedInFull(env, [], 0, pieces, last, w); }
    var d := BlockingRun(env, [], 0, pieces);
    assert d.answers + [] == d.answers;
  }

  /** One turn of the loop, seen from what was said before. */
  lemma ServeTurn(env: Env, carry: Bytes, count: nat, pieces: seq<Bytes>, last: LastRead, w: Writes,
                  answers: seq<Answer>, interim: seq<nat>)
    requires count < MAX_KEEPALIVE_REQUESTS
    ensures var asks, r := ReadContinues(carry, pieces), ReadMessage(carry, pieces);
            var said := interim + if asks then [count] else [];
            Then(answers, interim, Serve(env, carry, count, pieces, last, w))
            == if asks && !w.interim(count) then Outcome(answers, said, true)
               else
                 match r
                 case Waiting(buffer) => Outcome(answers + LastWords(last, buffer), said, last != Silence)
                 case Refused(e) => Outcome(answers + [Rejected(ReadStatus(e))], said, true)
                 case Got(raw, carry', pieces') =>
                   var answer := AnswerTo(env, raw, count);
                   if CloseAfter(answer) || !w.final(count) then Outcome(answers + [answer], said, true)
                   else Then(answers + [answer], said, Serve(env, carry', count + 1, pieces', last, w))
  {
    hide ReadMessage, ReadContinues, AnswerTo, LastWords;
    var r, here := ReadMessage(carry, pieces), if ReadContinues(carry, pieces) then [count] else [];
    assert answers + [] == answers;
    if r.Got? {
      ThenTwice(answers, interim, [AnswerTo(env, r.raw, count)], here,
                Serve(env, r.carry, count + 1, r.pieces, last, w));
    }
  }

  lemma ThenFirst(o: Outcome)
    ensures Then([], [], o) == o
  {}

  lemma ServedOut(env: Env, carry: Bytes, count: nat, pieces: seq<Bytes>, last: LastRead, w: Writes,
                  answers: seq<Answer>, interim: seq<nat>)
    requires count >= MAX_KEEPALIVE_REQUESTS
    ensures Then(answers, interim, Serve(env, carry, count, pieces, last, w)) == Outcome(answers, interim, true)
  {}

  method ServeClient(env: Env, pieces: seq<Bytes>, last: LastRead, w: Writes)
    returns (answers: seq<Answer>, interim: seq<nat>, closed: bool)
    requires Unsigned(env, [], 0, pieces)
    ensures Outcome(answers, interim, closed) == Serve(env, [], 0, pieces, last, w)
  {
    hide ReadMessage, AnswerTo, ReadContinues, Verdict, Unsigned, Extract, Serve, Then, CloseAfter, LastWords;
    answers, interim, closed := [], [], true;
    ghost var all := Serve(env, [], 0, pieces, last, w);
    ThenFirst(all);
    var count, carry, incoming := 0, [], pieces;
    while count < MAX_KEEPALIVE_REQUESTS
      invariant count <= MAX_KEEPALIVE_REQUESTS && Unsigned(env, carry, count, incoming)
      invariant all == Then(answers, interim, Serve(env, carry, count, incoming, last, w))
      invariant closed
    {
      UnsignedReadsOn(env, carry, count, incoming);
      ServeTurn(env, carry, count, incoming, last, w, answers, interim);
      var message, continueSent := ReadHttpRequestMessage(carry, incoming);
      interim := interim + if continueSent then [count] else [];
      if continueSent && !w.interim(count) { return; }
      match message {
        case Waiting(buffer) =>
          answers, closed := answers + LastWords(last, buffer), last != Silence;
          return;
        case Refused(e) =>
          answers := answers + [Rejected(ReadStatus(e))];
          return;
        case Got(raw, carry', pieces') =>
          var answer := AnswerRequest(env, raw, count);
          answers := answers + [answer];
          if CloseAfter(answer) || !w.final(count) { return; }
          count, carry, incoming := count + 1, carry', pieces';
      }
    }
    ServedOut(env, carry, count, incoming, last, w, answers, interim);
  }

  /** `_handle_client` */
  method HandleClient(env: Env, pieces: seq<Bytes>, last: LastRead, w: Writes)
    returns (answers: seq<Answer>, interim: seq<nat>, closed: bool)
    requires Unsigned(env, [], 0, pieces)
    ensures Outcome(answers, interim, closed) == Serve(env, [], 0, pieces, last, w)
    ensures answers <= BlockingAnswers(env, pieces, last) && interim <= BlockingInterim(env, [], 0, false, pieces)
    ensures (forall k :: w.interim(k) && w.final(k)) ==>
              && answers == BlockingAnswers(env, pieces, last)
              && interim == BlockingInterim(env, [], 0, false, pieces)
              && closed == (BlockingRun(env, [], 0, pieces).closed || last != Silence)
  {
    hide Serve, BlockingRun, BlockingInterim, BlockingAnswers, Unsigned;
    answers, interim, closed := ServeClient(env, pieces, last, w);
    ServedAgainstTheRun(env, pieces, last, w);
  }
}

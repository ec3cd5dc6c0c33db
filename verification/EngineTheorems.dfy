/** What follows from both engines refining one fold: agreement, independence of the cut,
    quiet buffers, and at most one interim response per request. */
module EngineTheorems {
  import opened Wrappers
  import opened ByteStrings
  import opened Framer
  import opened Engine
  import RequestParser
  import Chunked
  import EngineAgreement

  // ----- agreement of the two engines -----

  /** The blocking engine gives the answers of the fold under the same exact condition. */
  lemma BlockingRefinesFold(env: Env, pieces: seq<Bytes>)
    requires UnsignedStream(env, Flatten(pieces), 0)
    ensures var d, f := BlockingRun(env, [], 0, pieces), Fold(env, Flatten(pieces), 0);
            var quiet := WithinLimit(env, [], 0, pieces, MAX_REQUEST_BYTES) || RefusedAnyway(env, [], 0, pieces);
            && (d.answers == f.answers <==> quiet)
            && (quiet ==> d.closed == f.closed && (!f.closed ==> d.rest == f.rest))
  {
    hide SelectorRun, BlockingRun, WithinLimit, Fold, RefusedAnyway, BlockingInterim;
    UnsignedReads(env, pieces);
    EngineAgreement.SameReadsSameTalk(env, pieces);
    SelectorRefinesFold(env, pieces);
  }

  lemma UnsignedReads(env: Env, pieces: seq<Bytes>)
    requires UnsignedStream(env, Flatten(pieces), 0)
    ensures Unsigned(env, [], 0, pieces)
  {
    hide UnsignedStream, Unsigned;
    assert [] + Flatten(pieces) == Flatten(pieces);
    UnsignedStreamUnsignedReads(env, [], 0, pieces);
  }

  /** Two engines, two ways of cutting the same stream: the same answers in the same order if and
      only if the buffer limit cuts both short after the same request, or neither. */
  lemma EnginesAgree(env: Env, pieces: seq<Bytes>, pieces': seq<Bytes>)
    requires Flatten(pieces) == Flatten(pieces') && UnsignedStream(env, Flatten(pieces), 0)
    ensures var d, b := SelectorRun(env, START, pieces), BlockingRun(env, [], 0, pieces');
            var same := CutShortAt(env, [], 0, pieces) == CutShortAt(env, [], 0, pieces');
            && (d.answers == b.answers <==> same)
            && (d.answers == SelectorRun(env, START, pieces').answers <==> same)
            && (same ==> d.closing == b.closed)
  {
    hide SelectorRun, BlockingRun, CutShortAt, Fold, UnsignedStream, BlockingInterim;
    RunUnderTheGuard(env, pieces);
    RunUnderTheGuard(env, pieces');
    UnsignedReads(env, pieces');
    EngineAgreement.SameReadsSameTalk(env, pieces');
    var f := Fold(env, Flatten(pieces), 0);
    match CutShortAt(env, [], 0, pieces)
    case None =>
    case Some(k) =>
      assert |f.answers[..k] + [Rejected(413)]| == k + 1;
      if CutShortAt(env, [], 0, pieces').Some? {
        assert |f.answers[..CutShortAt(env, [], 0, pieces').value] + [Rejected(413)]|
            == CutShortAt(env, [], 0, pieces').value + 1;
      }
  }

  /** When the peer closes, the selectors engine adds nothing, and the blocking one refuses a message
      cut short: on the same reads they agree exactly when no message has been begun, which within
      the limit is when the stream does not end inside a message. */
  lemma EnginesAgreeAtEof(env: Env, pieces: seq<Bytes>)
    requires UnsignedStream(env, Flatten(pieces), 0)
    ensures var d, f := SelectorRun(env, START, pieces), Fold(env, Flatten(pieces), 0);
            var begun := !d.closing && d.buffer != [];
            && BlockingAnswers(env, pieces, EndOfStream) == d.answers + (if begun then [Rejected(400)] else [])
            && (d.answers == BlockingAnswers(env, pieces, EndOfStream) <==> !begun)
            && (WithinLimit(env, [], 0, pieces, MAX_REQUEST_BYTES) ==> (begun <==> !f.closed && f.rest != []))
  {
    hide SelectorRun, BlockingRun, WithinLimit, Fold, UnsignedStream, RefusedAnyway, BlockingInterim;
    UnsignedReads(env, pieces);
    EngineAgreement.SameReadsSameTalk(env, pieces);
    SelectorRefinesFold(env, pieces);
    var d := SelectorRun(env, START, pieces);
    assert d.answers + [] == d.answers;
  }

  /** A peer that falls silent, or whose socket fails, hears the same answers from both engines; one
      that lets the connection time out hears a 408 behind them, unless it is closed. */
  lemma SilentPeers(env: Env, pieces: seq<Bytes>)
    requires UnsignedStream(env, Flatten(pieces), 0)
    ensures var d := SelectorRun(env, START, pieces);
            && BlockingAnswers(env, pieces, Silence) == d.answers == BlockingAnswers(env, pieces, ReadError)
            && BlockingAnswers(env, pieces, TimeOut) == d.answers + (if d.closing then [] else [Rejected(408)])
  {
    hide SelectorRun, BlockingRun, UnsignedStream, BlockingInterim;
    UnsignedReads(env, pieces);
    EngineAgreement.SameReadsSameTalk(env, pieces);
    var d := SelectorRun(env, START, pieces);
    assert d.answers + [] == d.answers;
  }

  // ----- pipelining -----

  /** The answers to a list of framed messages, up to and including the first that closes. */
  function AnswersTo(env: Env, messages: seq<Bytes>, served: nat): seq<Answer> {
    if messages == [] then []
    else
      var answer := AnswerTo(env, messages[0], served);
      if CloseAfter(answer) then [answer] else [answer] + AnswersTo(env, messages[1..], served + 1)
  }

  /** Pipelined requests are taken apart exactly where they were put together, and answered in
      their order. */
  lemma {:induction false} PipelineIsAnsweredInOrder(env: Env, messages: seq<Bytes>, served: nat)
    requires forall i :: 0 <= i < |messages| ==> Verdict(messages[i]) == Message(|messages[i]|)
    ensures Fold(env, Flatten(messages), served).answers == AnswersTo(env, messages, served)
    ensures !Fold(env, Flatten(messages), served).closed ==> Fold(env, Flatten(messages), served).rest == []
    decreases |messages|
  {
    hide Verdict, AnswerTo;
    if messages == [] {
      assert Verdict([]) == Incomplete by { EmptyIsIncomplete(); }
    } else {
      var m, stream := messages[0], Flatten(messages);
      SeenVerdictIsStable(m, stream);
      MessageFits(m);
      assert stream[..|m|] == m && stream[|m|..] == Flatten(messages[1..]);
      PipelineIsAnsweredInOrder(env, messages[1..], served + 1);
    }
  }

  // ----- the shape of the answers -----

  /** Answer number `k` kept the connection open: it served a request, the `k`th. */
  predicate KeptOpen(a: Answer, k: nat) { a.Served? && !a.close && a.ordinal == k }

  /** Every answer but the last serves a request, in order and without a gap; the connection is
      closed exactly when the last answer says so; and it never serves more than
      MAX_KEEPALIVE_REQUESTS requests. */
  lemma {:induction false} AnswersAreInOrder(env: Env, stream: Bytes, served: nat)
    requires served < MAX_KEEPALIVE_REQUESTS
    ensures var f := Fold(env, stream, served);
            && served + |f.answers| <= MAX_KEEPALIVE_REQUESTS
            && (forall i :: 0 <= i < |f.answers| - 1 ==> KeptOpen(f.answers[i], served + i + 1))
            && (f.closed <==> f.answers != [] && CloseAfter(f.answers[|f.answers| - 1]))
            && (!f.closed ==> f.served == served + |f.answers|)
    decreases |stream|
  {
    hide Verdict, RequestParser.Parse;
    if Verdict(stream).Message? {
      MessageFits(stream);
      var n := Verdict(stream).length;
      var answer := AnswerTo(env, stream[..n], served);
      KeptOpenIsBelowTheLimit(env, stream[..n], served);
      if !CloseAfter(answer) {
        assert KeptOpen(answer, served + 1);
        AnswersAreInOrder(env, stream[n..], served + 1);
      }
    }
  }

  // ----- the whole-buffer guard -----

  /** Every message up to the one that closes the connection has a head without chunked coding. */
  predicate LengthFramed(env: Env, stream: Bytes, served: nat)
    decreases |stream|
  {
    && (HeadOf(stream).HeadInfo? ==> !HeadOf(stream).chunked)
    && match Verdict(stream)
       case Message(n) =>
         MessageFits(stream);
         CloseAfter(AnswerTo(env, stream[..n], served)) || LengthFramed(env, stream[n..], served + 1)
       case _ => true
  }

  lemma {:induction false} LengthFramedRest(env: Env, b: Bytes, more: Bytes, served: nat)
    requires LengthFramed(env, b + more, served) && !Fold(env, b, served).closed
    ensures var f := Fold(env, b, served);
            LengthFramed(env, f.rest + more, f.served)
            && (HeadOf(f.rest).HeadInfo? ==> !HeadOf(f.rest).chunked)
    decreases |b|
  {
    hide Verdict, HeadOf, AnswerTo;
    if Verdict(b).Message? {
      var n := Verdict(b).length;
      MessageFits(b);
      SeenVerdictIsStable(b, b + more);
      assert (b + more)[..n] == b[..n] && (b + more)[n..] == b[n..] + more;
      LengthFramedRest(env, b[n..], more, served + 1);
    } else if HeadOf(b).HeadInfo? {
      HeadIsStable(b, b + more);
    }
  }

  lemma UnchunkedIsUnsigned(b: Bytes)
    requires HeadOf(b).HeadInfo? ==> !HeadOf(b).chunked
    ensures !Verdict(b).SignedSize?
  {
    HeadInfoIsInBuffer(b);
  }

  lemma LengthFramedIsUnsigned(env: Env, stream: Bytes, served: nat)
    requires LengthFramed(env, stream, served)
    ensures UnsignedStream(env, stream, served)
  {
    hide LengthFramed, Fold;
    var f := Fold(env, stream, served);
    if !f.closed {
      assert stream + [] == stream;
      LengthFramedRest(env, stream, [], served);
      FoldLeavesIncomplete(env, stream, served);
      UnchunkedIsUnsigned(f.rest);
    }
  }

  lemma {:induction false} LengthFramedStaysSmall(env: Env, held: Bytes, served: nat, pieces: seq<Bytes>, read: nat)
    requires Verdict(held).Incomplete? && LengthFramed(env, held + Flatten(pieces), served)
    requires forall i :: 0 <= i < |pieces| ==> |pieces[i]| <= read
    ensures WithinLimit(env, held, served, pieces, MAX_HEADER_BYTES + Chunked.MAX_BODY_BYTES - 1 + read)
    decreases |pieces|
  {
    hide Verdict, HeadOf, Fold, LengthFramed;
    if pieces != [] {
      var more := Flatten(pieces[1..]);
      assert Fold(env, held, served) == Folded([], false, held, served) by { FoldOfIncomplete(env, held, served); }
      LengthFramedRest(env, held, Flatten(pieces), served);
      WaitingBufferIsSmall(held);
      assert held + Flatten(pieces) == held + pieces[0] + more;
      var f := Fold(env, held + pieces[0], served);
      if !f.closed {
        LengthFramedRest(env, held + pieces[0], more, served);
        FoldLeavesIncomplete(env, held + pieces[0], served);
        UnchunkedIsUnsigned(f.rest);
        LengthFramedStaysSmall(env, f.rest, f.served, pieces[1..], read);
      }
    }
  }

  lemma {:induction false} WithinLimitIsMonotone(env: Env, held: Bytes, served: nat, pieces: seq<Bytes>, a: nat, b: nat)
    requires WithinLimit(env, held, served, pieces, a) && a <= b
    ensures WithinLimit(env, held, served, pieces, b)
    decreases |pieces|
  {
    hide Fold;
    if pieces != [] {
      var f := Fold(env, held + pieces[0], served);
      if !f.closed { WithinLimitIsMonotone(env, f.rest, f.served, pieces[1..], a, b); }
    }
  }

  /** When no head uses chunked coding, no read ever leaves more than 548863 bytes in the
      selectors engine (544767 in the blocking one), so the MAX_REQUEST_BYTES guard never fires
      and the side condition of the refinement holds by itself. */
  lemma LengthFramedNeverHitsTheGuard(env: Env, pieces: seq<Bytes>)
    requires LengthFramed(env, Flatten(pieces), 0)
    requires forall i :: 0 <= i < |pieces| ==> |pieces[i]| <= SELECTOR_READ
    ensures UnsignedStream(env, Flatten(pieces), 0)
    ensures WithinLimit(env, [], 0, pieces, 548_863)
    ensures WithinLimit(env, [], 0, pieces, MAX_REQUEST_BYTES)
    ensures (forall i :: 0 <= i < |pieces| ==> |pieces[i]| <= BLOCKING_READ)
            ==> WithinLimit(env, [], 0, pieces, 544_767)
  {
    hide WithinLimit, LengthFramed;
    EmptyIsIncomplete();
    assert [] + Flatten(pieces) == Flatten(pieces);
    LengthFramedIsUnsigned(env, Flatten(pieces), 0);
    LengthFramedStaysSmall(env, [], 0, pieces, SELECTOR_READ);
    WithinLimitIsMonotone(env, [], 0, pieces, 548_863, MAX_REQUEST_BYTES);
    if forall i :: 0 <= i < |pieces| ==> |pieces[i]| <= BLOCKING_READ {
      LengthFramedStaysSmall(env, [], 0, pieces, BLOCKING_READ);
    }
  }

  // ----- with chunked messages the guard can see the cut -----

  /** A stream cut into reads of at most `k` bytes. */
  function Cut(s: Bytes, k: nat): seq<Bytes>
    requires k > 0
    decreases |s|
  {
    if |s| == 0 then [] else if |s| <= k then [s] else [s[..k]] + Cut(s[k..], k)
  }

  predicate IsCut(pieces: seq<Bytes>, s: Bytes) {
    Flatten(pieces) == s && forall i :: 0 <= i < |pieces| ==> 0 < |pieces[i]| <= SELECTOR_READ
  }

  lemma {:induction false} CutIsACut(s: Bytes)
    ensures IsCut(Cut(s, SELECTOR_READ), s)
    decreases |s|
  {
    if |s| > SELECTOR_READ {
      CutIsACut(s[SELECTOR_READ..]);
    } else if |s| > 0 {
      assert Flatten([s]) == s + Flatten([]) == s;
    }
  }

  lemma {:induction false} ShortStreamIsWithinLimit(env: Env, held: Bytes, served: nat, pieces: seq<Bytes>, limit: nat)
    requires |held| + |Flatten(pieces)| <= limit
    ensures WithinLimit(env, held, served, pieces, limit)
    decreases |pieces|
  {
    if pieces != [] {
      var f := Fold(env, held + pieces[0], served);
      FoldLeavesIncomplete(env, held + pieces[0], served);
      ShortStreamIsWithinLimit(env, f.rest, f.served, pieces[1..], limit);
    }
  }

  lemma {:induction false} RunSnoc(env: Env, s: ReadState, pieces: seq<Bytes>, last: Bytes)
    ensures var d := SelectorRun(env, s, pieces);
            SelectorRun(env, s, pieces + [last]) == if d.closing then d else ReadEvent(env, d, last)
    decreases |pieces|
  {
    hide Drain;
    var all := pieces + [last];
    if pieces == [] {
      assert all[0] == last && all[1..] == [];
      assert s.closing || SelectorRun(env, s, all) == SelectorRun(env, ReadEvent(env, s, last), []);
    } else if !s.closing {
      assert all[0] == pieces[0] && all[1..] == pieces[1..] + [last];
      RunSnoc(env, ReadEvent(env, s, pieces[0]), pieces[1..], last);
    }
  }

  lemma {:induction false} DrainKeepsAnswers(env: Env, s: ReadState)
    ensures s.answers <= Drain(env, s).answers
    decreases |s.buffer|
  {
    hide Extract, AnswerTo, MaybeContinue;
    MaybeContinueKeeps(s);
    if Extract(s.buffer).Message? {
      ExtractFits(s.buffer);
      var n := Extract(s.buffer).length;
      var answer := AnswerTo(env, s.buffer[..n], s.served);
      if !CloseAfter(answer) { DrainKeepsAnswers(env, Answered(s, n, answer)); }
    }
  }

  /** Without the side condition the answers do depend on the cut: a message of exactly
      MAX_REQUEST_BYTES is served when it arrives alone and refused with 413 when the read that
      completes it also brings the first pipelined byte. */
  lemma GuardSeesTheCut(env: Env, m: Bytes, next: char)
    requires |m| == MAX_REQUEST_BYTES && Verdict(m) == Message(|m|)
    ensures UnsignedStream(env, m + [next], 0)
    ensures exists a, b :: IsCut(a, m + [next]) && IsCut(b, m + [next])
              && AnswerTo(env, m, 0) in SelectorRun(env, START, a).answers
              && SelectorRun(env, START, b).answers == [Rejected(413)]
  {
    hide Verdict, AnswerTo, SelectorRun;
    var whole, most := Cut(m, SELECTOR_READ), Cut(m[..|m| - 1], SELECTOR_READ);
    var a, b := whole + [[next]], most + [[m[|m| - 1], next]];
    ServedAlone(env, m, [next]);
    RefusedTogether(env, m, next);
    OneMoreByteIsUnsigned(env, m, next);
    assert IsCut(a, m + [next]) by { CutIsACut(m); CutSnoc(whole, m, [next]); }
    assert IsCut(b, m + [next]) by {
      CutIsACut(m[..|m| - 1]);
      CutSnoc(most, m[..|m| - 1], [m[|m| - 1], next]);
      assert m[..|m| - 1] + [m[|m| - 1], next] == m + [next];
    }
  }

  lemma OneMoreByteIsUnsigned(env: Env, m: Bytes, next: char)
    requires Verdict(m) == Message(|m|)
    ensures UnsignedStream(env, m + [next], 0)
  {
    SeenVerdictIsStable(m, m + [next]);
    assert Verdict([next]) == Incomplete;
    FoldOfIncomplete(env, [next], 1);
    assert (m + [next])[|m|..] == [next];
    hide Verdict, AnswerTo;
  }

  lemma CutSnoc(pieces: seq<Bytes>, s: Bytes, last: Bytes)
    requires IsCut(pieces, s) && 0 < |last| <= SELECTOR_READ
    ensures IsCut(pieces + [last], s + last)
  {
    FlattenAppend(pieces, [last]);
    assert Flatten([last]) == last + Flatten([]) == last;
  }

  lemma ServedAlone(env: Env, m: Bytes, next: Bytes)
    requires |m| == MAX_REQUEST_BYTES && Verdict(m) == Message(|m|)
    ensures AnswerTo(env, m, 0) in SelectorRun(env, START, Cut(m, SELECTOR_READ) + [next]).answers
  {
    hide Verdict, AnswerTo, SelectorRun, Drain, WithinLimit, Cut;
    var whole := Cut(m, SELECTOR_READ);
    CutIsACut(m);
    ShortStreamIsWithinLimit(env, [], 0, whole, MAX_REQUEST_BYTES);
    assert UnsignedStream(env, m, 0) by {
      assert m[|m|..] == [] && m[..|m|] == m;
      EmptyIsIncomplete();
      FoldOfIncomplete(env, [], 1);
    }
    SelectorRefinesFold(env, whole);
    var d := SelectorRun(env, START, whole);
    assert AnswerTo(env, m, 0) in d.answers by {
      assert m[..|m|] == m;
      assert AnswerTo(env, m, 0) == Fold(env, m, 0).answers[0];
    }
    RunSnoc(env, START, whole, next);
    DrainKeepsAnswers(env, d.(buffer := d.buffer + next));
  }

  lemma RefusedTogether(env: Env, m: Bytes, next: char)
    requires |m| == MAX_REQUEST_BYTES && Verdict(m) == Message(|m|)
    ensures SelectorRun(env, START, Cut(m[..|m| - 1], SELECTOR_READ) + [[m[|m| - 1], next]]).answers == [Rejected(413)]
  {
    hide Verdict, AnswerTo, SelectorRun, WithinLimit, Cut;
    var p := m[..|m| - 1];
    var most := Cut(p, SELECTOR_READ);
    CutIsACut(p);
    ShortStreamIsWithinLimit(env, [], 0, most, MAX_REQUEST_BYTES);
    MessagesArePrefixFree(m, p);
    FoldOfIncomplete(env, p, 0);
    SelectorRefinesFold(env, most);
    RunSnoc(env, START, most, [m[|m| - 1], next]);
  }

  // ----- 100 Continue -----

  /** The log of interim responses: strictly increasing request counts, and an entry for the
      request being read exactly when its header end index is remembered. */
  ghost predicate ContinueInvariant(s: ReadState) {
    && (forall i, j :: 0 <= i < j < |s.interim| ==> s.interim[i] < s.interim[j])
    && (forall i :: 0 <= i < |s.interim| ==> s.interim[i] <= s.served)
    && s.continueSent <= {Find(s.buffer, SEPARATOR, 0)}
    && (!s.closing && s.interim != [] && s.interim[|s.interim| - 1] == s.served
        ==> Find(s.buffer, SEPARATOR, 0) >= 0 && Find(s.buffer, SEPARATOR, 0) in s.continueSent)
  }

  lemma {:induction false} DrainKeepsContinue(env: Env, s: ReadState)
    requires ContinueInvariant(s) && !s.closing && Unsigned(env, s.buffer, s.served, [])
    ensures ContinueInvariant(Drain(env, s))
    ensures s.interim <= Drain(env, s).interim && |Drain(env, s).interim| <= |s.interim| + 1
    ensures Drain(env, s).interim != s.interim ==>
              var d := Drain(env, s);
              && !d.closing && d.interim == s.interim + [d.served]
              && Extract(d.buffer).Incomplete?
              && InspectHead(d.buffer).HeadInfo? && InspectHead(d.buffer).expectContinue
    decreases |s.buffer|
  {
    hide Verdict, AnswerTo, Unsigned;
    UnsignedStep(env, s.buffer, s.served, []);
    match Extract(s.buffer)
    case Failed(e) =>
    case Incomplete =>
    case Message(n) =>
      ExtractFits(s.buffer);
      var answer := AnswerTo(env, s.buffer[..n], s.served);
      KeptOpenIsServed(env, s.buffer[..n], s.served);
      if !CloseAfter(answer) { DrainKeepsContinue(env, Answered(s, n, answer)); }
  }

  /** Under any fragmentation at most one `100 Continue` is queued per request. */
  lemma {:induction false} AtMostOneContinue(env: Env, s: ReadState, pieces: seq<Bytes>)
    requires ContinueInvariant(s)
    requires s.closing || (Extract(s.buffer).Incomplete? && Unsigned(env, s.buffer, s.served, pieces))
    ensures var d := SelectorRun(env, s, pieces);
            forall i, j :: 0 <= i < j < |d.interim| ==> d.interim[i] < d.interim[j]
    decreases |pieces|
  {
    hide Drain, Unsigned, Extract;
    if pieces == [] || s.closing {
      assert SelectorRun(env, s, pieces) == s;
    } else {
      assert SelectorRun(env, s, pieces) == SelectorRun(env, ReadEvent(env, s, pieces[0]), pieces[1..]);
      var grown := s.(buffer := s.buffer + pieces[0]);
      if Find(s.buffer, SEPARATOR, 0) >= 0 { FindExtends(s.buffer, grown.buffer, SEPARATOR, 0); }
      UnsignedStep(env, s.buffer, s.served, pieces);
      UnsignedFewer(env, grown.buffer, grown.served, pieces[1..]);
      UnsignedDrain(env, grown, pieces[1..]);
      DrainKeepsContinue(env, grown);
      AtMostOneContinue(env, ReadEvent(env, s, pieces[0]), pieces[1..]);
    }
  }

  /** From the first byte on, in both engines. */
  lemma OneContinuePerRequest(env: Env, pieces: seq<Bytes>)
    requires Unsigned(env, [], 0, pieces)
    ensures var log := SelectorRun(env, START, pieces).interim;
            && (forall i, j :: 0 <= i < j < |log| ==> log[i] < log[j])
            && BlockingInterim(env, [], 0, false, pieces) == log
  {
    hide SelectorRun, BlockingInterim, BlockingRun, Unsigned;
    EmptyIsIncomplete();
    AtMostOneContinue(env, START, pieces);
    EngineAgreement.SameReadsSameTalk(env, pieces);
  }
}

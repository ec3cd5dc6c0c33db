/** Read by read the two engines say the same: the same answers, and `100 Continue` for the same
    requests. */
module EngineAgreement {
  import opened ByteStrings
  import opened Framer
  import opened Engine
  import RequestParser
  import Chunked

  /** Everything a connection says, and what it holds when it still waits for more. */
  datatype Talk = Talk(answers: seq<Answer>, interim: seq<nat>, closed: bool, held: Bytes)

  function Before(answers: seq<Answer>, interim: seq<nat>, t: Talk): Talk {
    t.(answers := answers + t.answers, interim := interim + t.interim)
  }

  /** What is said from the moment `buffer` is held and `pieces` are still to be read. */
  function TalkOf(env: Env, buffer: Bytes, served: nat, sent: bool, pieces: seq<Bytes>): Talk
    decreases |pieces|, |buffer|
  {
    match Extract(buffer)
    case Failed(e) => Talk([Rejected(ReadStatus(e))], [], true, [])
    case Message(n) =>
      ExtractFits(buffer);
      var answer := AnswerTo(env, buffer[..n], served);
      if CloseAfter(answer) then Talk([answer], [], true, [])
      else Before([answer], [], TalkOf(env, buffer[n..], served + 1, false, pieces))
    case SignedSize => Talk([], [], false, buffer)
    case Incomplete =>
      var asks := !sent && AsksToContinue(buffer);
      Before([], if asks then [served] else [],
             if pieces == [] then Talk([], [], false, buffer)
             else TalkOf(env, buffer + pieces[0], served, sent || asks, pieces[1..]))
  }

  lemma BeforeAll(a: seq<Answer>, i: seq<nat>, x: Answer, j: seq<nat>, t: Talk)
    ensures Before(a, i, Before([x], [], t)) == Before(a + [x], i, t)
    ensures Before(a, i, Before([], j, t)) == Before(a, i + j, t)
    ensures Before(a, i, Talk([x], [], t.closed, t.held)) == Talk(a + [x], i, t.closed, t.held)
    ensures Before(a, i, Talk([], [], t.closed, t.held)) == Talk(a, i, t.closed, t.held)
  {
    assert a + ([x] + t.answers) == a + [x] + t.answers && a + ([] + t.answers) == a + t.answers && a + [] == a;
    assert i + ([] + t.interim) == i + t.interim && i + (j + t.interim) == i + j + t.interim && i + [] == i;
  }

  /** The selectors engine queues an interim response exactly when the blocking one would: a
      Content-Length head that is incomplete announces a body. */
  lemma SameQuestion(s: ReadState, sent: bool)
    requires Extract(s.buffer).Incomplete?
    requires s.continueSent == if sent then {Find(s.buffer, SEPARATOR, 0)} else {}
    ensures MaybeContinue(s).interim == s.interim + if !sent && AsksToContinue(s.buffer) then [s.served] else []
    ensures MaybeContinue(s) == s.(interim := MaybeContinue(s).interim, continueSent := MaybeContinue(s).continueSent)
    ensures MaybeContinue(s).continueSent
            == if sent || AsksToContinue(s.buffer) then {Find(s.buffer, SEPARATOR, 0)} else {}
  {
    hide InspectFields, Chunked.Frame, Find;
    HeadInfoIsInBuffer(s.buffer);
  }

  predicate Sent(s: ReadState, sent: bool) {
    && s.continueSent == (if sent then {Find(s.buffer, SEPARATOR, 0)} else {})
    && (sent ==> Find(s.buffer, SEPARATOR, 0) >= 0)
  }

  function Said(s: ReadState): Talk {
    Talk(s.answers, s.interim, s.closing, if s.closing then [] else s.buffer)
  }

  lemma {:induction false} SelectorTalks(env: Env, s: ReadState, sent: bool, pieces: seq<Bytes>)
    requires !s.closing && Sent(s, sent) && Unsigned(env, s.buffer, s.served, pieces)
    ensures Said(SelectorRun(env, Drain(env, s), pieces))
            == Before(s.answers, s.interim, TalkOf(env, s.buffer, s.served, sent, pieces))
    decreases |pieces|, |s.buffer|
  {
    hide Extract, AnswerTo, AsksToContinue, MaybeContinue, Sent, SelectorRun, Drain, Before, Unsigned;
    UnsignedStep(env, s.buffer, s.served, pieces);
    ClosedRunStops(env, Drain(env, s), pieces);
    match Extract(s.buffer)
    case Failed(e) =>
      RefusalEndsIt(env, s);
      BeforeAll(s.answers, s.interim, Rejected(ReadStatus(e)), [], Talk([], [], true, []));
    case Message(n) =>
      ExtractFits(s.buffer);
      AnsweredAsksAfresh(env, s);
      var answer := AnswerTo(env, s.buffer[..n], s.served);
      var next := Answered(s, n, answer);
      hide Answered;
      if CloseAfter(answer) {
        BeforeAll(s.answers, s.interim, answer, [], Talk([], [], true, []));
      } else {
        SelectorTalks(env, next, false, pieces);
        BeforeAll(s.answers, s.interim, answer, [], TalkOf(env, next.buffer, s.served + 1, false, pieces));
      }
    case Incomplete =>
      WaitingTalks(env, s, sent, pieces);
      if pieces != [] {
        var next := MaybeContinue(s).(buffer := s.buffer + pieces[0]);
        AfterTheQuestion(env, s, sent, pieces);
        SelectorTalks(env, next, sent || AsksToContinue(s.buffer), pieces[1..]);
      }
  }

  /** At an incomplete message both sides go on with the next read. */
  lemma WaitingTalks(env: Env, s: ReadState, sent: bool, pieces: seq<Bytes>)
    requires Extract(s.buffer).Incomplete? && !s.closing && Sent(s, sent)
    ensures var run, t := SelectorRun(env, Drain(env, s), pieces), TalkOf(env, s.buffer, s.served, sent, pieces);
            if pieces == [] then Said(run) == Before(s.answers, s.interim, t)
            else
              var next := MaybeContinue(s).(buffer := s.buffer + pieces[0]);
              && run == SelectorRun(env, Drain(env, next), pieces[1..])
              && Before(s.answers, s.interim, t)
                 == Before(next.answers, next.interim,
                           TalkOf(env, next.buffer, next.served, sent || AsksToContinue(s.buffer), pieces[1..]))
  {
    AfterTheQuestion(env, s, sent, pieces);
    hide Extract, AsksToContinue, MaybeContinue, Sent, SelectorRun, Drain, Before;
    var asked := if !sent && AsksToContinue(s.buffer) then [s.served] else [];
    if pieces == [] {
      BeforeAll(s.answers, s.interim, Rejected(0), asked, Talk([], [], false, s.buffer));
      BeforeAll(s.answers, s.interim + asked, Rejected(0), [], Talk([], [], false, s.buffer));
    } else {
      BeforeAll(s.answers, s.interim, Rejected(0), asked,
                TalkOf(env, s.buffer + pieces[0], s.served, sent || AsksToContinue(s.buffer), pieces[1..]));
    }
  }

  lemma RefusalEndsIt(env: Env, s: ReadState)
    requires Extract(s.buffer).Failed?
    ensures Drain(env, s) == s.(answers := s.answers + [Rejected(ReadStatus(Extract(s.buffer).error))], closing := true)
  {}

  lemma AnsweredAsksAfresh(env: Env, s: ReadState)
    requires Extract(s.buffer).Message? && Extract(s.buffer).length <= |s.buffer|
    ensures var n := Extract(s.buffer).length;
            var answer := AnswerTo(env, s.buffer[..n], s.served);
            var next := Answered(s, n, answer);
            && Drain(env, s) == (if CloseAfter(answer) then next else Drain(env, next))
            && next.closing == CloseAfter(answer) && next.buffer == s.buffer[n..]
            && next.answers == s.answers + [answer] && next.interim == s.interim
            && (!next.closing ==> Sent(next, false) && next.served == s.served + 1)
  {
    hide RequestParser.Parse, Extract;
    ExtractFits(s.buffer);
  }

  /** The selectors engine stays at an incomplete message until the next read. */
  lemma AfterTheQuestion(env: Env, s: ReadState, sent: bool, pieces: seq<Bytes>)
    requires Extract(s.buffer).Incomplete? && !s.closing && Sent(s, sent)
    ensures var asks, d := !sent && AsksToContinue(s.buffer), MaybeContinue(s);
            && d.interim == s.interim + (if asks then [s.served] else [])
            && d.answers == s.answers && !d.closing && d.served == s.served && d.buffer == s.buffer
            && SelectorRun(env, Drain(env, s), pieces)
               == (if pieces == [] then d
                   else SelectorRun(env, Drain(env, d.(buffer := s.buffer + pieces[0])), pieces[1..]))
            && (pieces != [] ==> Sent(d.(buffer := s.buffer + pieces[0]), sent || asks))
  {
    SameQuestion(s, sent);
    AskingNeedsAHead(s.buffer);
    hide Extract, AsksToContinue, MaybeContinue, Find;
    var d := MaybeContinue(s);
    assert Drain(env, s) == d;
    hide Drain;
    if pieces != [] {
      assert SelectorRun(env, d, pieces) == SelectorRun(env, ReadEvent(env, d, pieces[0]), pieces[1..]);
      if Find(s.buffer, SEPARATOR, 0) >= 0 { FindExtends(s.buffer, s.buffer + pieces[0], SEPARATOR, 0); }
    }
  }

  lemma AskingNeedsAHead(b: Bytes)
    ensures AsksToContinue(b) ==> Find(b, SEPARATOR, 0) >= 0
  {}

  lemma {:induction false} BlockingTalks(env: Env, carry: Bytes, count: nat, sent: bool, pieces: seq<Bytes>)
    requires count < MAX_KEEPALIVE_REQUESTS && Unsigned(env, carry, count, pieces)
    ensures var d := BlockingRun(env, carry, count, pieces);
            TalkOf(env, carry, count, sent, pieces)
            == Talk(d.answers, BlockingInterim(env, carry, count, sent, pieces), d.closed,
                    if d.closed then [] else d.rest)
    decreases |pieces|, |carry|
  {
    hide Extract, AnswerTo, AsksToContinue, Unsigned;
    UnsignedStep(env, carry, count, pieces);
    if Extract(carry).Message? {
      ExtractFits(carry);
      var n := Extract(carry).length;
      if !CloseAfter(AnswerTo(env, carry[..n], count)) {
        KeptOpenIsBelowTheLimit(env, carry[..n], count);
        BlockingTalks(env, carry[n..], count + 1, false, pieces);
      }
    } else if Extract(carry).Incomplete? && pieces != [] {
      BlockingTalks(env, carry + pieces[0], count, sent || AsksToContinue(carry), pieces[1..]);
    }
  }

  /** Read by read the two engines are the same: on the same reads, within the buffer limit or
      not, they give the same answers, send `100 Continue` for the same requests, and close alike. */
  lemma SameReadsSameTalk(env: Env, pieces: seq<Bytes>)
    requires Unsigned(env, [], 0, pieces)
    ensures var d, b := SelectorRun(env, START, pieces), BlockingRun(env, [], 0, pieces);
            && d.answers == b.answers && d.closing == b.closed && (!d.closing ==> d.buffer == b.rest)
            && d.interim == BlockingInterim(env, [], 0, false, pieces)
  {
    hide Drain, AnswerTo, SelectorRun, BlockingRun, BlockingInterim, TalkOf;
    DrainNothing(env);
    SelectorTalks(env, START, false, pieces);
    BlockingTalks(env, [], 0, false, pieces);
    var t := TalkOf(env, [], 0, false, pieces);
    assert [] + t.answers == t.answers && [] + t.interim == t.interim;
  }

  lemma DrainNothing(env: Env)
    ensures Drain(env, START) == START
  {
    EmptyIsIncomplete();
  }
}

/** What the two loops over a chunked body do on every input, sizes with a minus sign included: when
    they end, when they accept only sentences of the grammar, and when a verdict stands. */
module SignedLoops {
  import opened Wrappers
  import opened ByteStrings
  import opened Chunked
  import opened ChunkLoops

  // ----- when a verdict stands -----

  /** The turn from `s` reads a size that leads so far back that the terminator of its data is looked
      for at the end of the buffer, where Python counts negative indices from. */
  predicate CountsFromTheEnd(b: Bytes, s: FrameState) {
    var end := FindFrom(b, CRLF, s.position);
    end != -1 && var size := SizeOf(Slice(b, s.position, end)); size.Size? && end + 2 + size.n <= -3
  }

  ghost predicate ReachesTheEnd(b: Bytes) {
    exists turns: nat ::
      FrameLoop(b, FRAME_START, turns).GoesOn? && CountsFromTheEnd(b, FrameLoop(b, FRAME_START, turns).state)
  }

  /** How far back that is. */
  function Back(b: Bytes, s: FrameState): nat
    requires CountsFromTheEnd(b, s)
  {
    var end := FindFrom(b, CRLF, s.position);
    -(end + 2 + SizeOf(Slice(b, s.position, end)).n)
  }

  /** The first turn that counts from the end looks `back` bytes from it. */
  ghost predicate LooksBack(b: Bytes, back: nat) {
    exists turns: nat ::
      && FrameLoop(b, FRAME_START, turns).GoesOn? && CountsFromTheEnd(b, FrameLoop(b, FRAME_START, turns).state)
      && Back(b, FrameLoop(b, FRAME_START, turns).state) == back
      && forall k: nat :: k < turns && FrameLoop(b, FRAME_START, k).GoesOn? ==>
                            !CountsFromTheEnd(b, FrameLoop(b, FRAME_START, k).state)
  }

  lemma {:induction false} SomeTurnLooksBack(b: Bytes, turns: nat) returns (back: nat)
    requires FrameLoop(b, FRAME_START, turns).GoesOn?
    requires CountsFromTheEnd(b, FrameLoop(b, FRAME_START, turns).state)
    ensures LooksBack(b, back)
    decreases turns
  {
    hide FrameLoop, CountsFromTheEnd, Back;
    if k: nat :| k < turns && FrameLoop(b, FRAME_START, k).GoesOn?
                 && CountsFromTheEnd(b, FrameLoop(b, FRAME_START, k).state) {
      back := SomeTurnLooksBack(b, k);
    } else {
      back := Back(b, FrameLoop(b, FRAME_START, turns).state);
    }
  }

  /** A terminator is never found at -2 or -1. */
  lemma NoCrlfAcrossTheEnd(b: Bytes, i: int)
    requires i == -2 || i == -1
    ensures Slice(b, i, i + 2) != CRLF
  {}

  lemma SliceExtends(b: Bytes, b': Bytes, i: nat, j: nat)
    requires b <= b' && i <= j <= |b|
    ensures Slice(b', i, j) == Slice(b, i, j) == b[i..j]
  {}

  /** A turn that does not count from the end, and has all it needs, is the same on a longer buffer. */
  lemma TurnIsStable(b: Bytes, b': Bytes, s: FrameState)
    requires b <= b' && 0 <= s.position <= |b|
    requires !CountsFromTheEnd(b, s) && FrameTurn(b, s) != Ends(NeedMore)
    ensures FrameTurn(b', s) == FrameTurn(b, s)
    ensures FrameTurn(b, s).GoesOn? ==> 0 <= FrameTurn(b, s).state.position <= |b|
  {
    hide SizeOf, At, Find, Slice, FrameTrailers;
    var end := Find(b, CRLF, s.position);
    FindExtends(b, b', CRLF, s.position);
    SliceExtends(b, b', s.position, end);
    var size := SizeOf(b[s.position..end]);
    if size.Size? && size.n == 0 {
      FrameTrailersStable(b, b', end + 2);
    } else if size.Size? {
      var i := end + 2 + size.n;
      if i < 0 {
        NoCrlfAcrossTheEnd(b, i);
        NoCrlfAcrossTheEnd(b', i);
      } else {
        SliceExtends(b, b', i, i + 2);
      }
    }
  }

  /** The loop from `s` never counts from the end. */
  ghost predicate StaysAhead(b: Bytes, s: FrameState) {
    forall turns: nat :: FrameLoop(b, s, turns).GoesOn? ==> !CountsFromTheEnd(b, FrameLoop(b, s, turns).state)
  }

  lemma StaysAheadNext(b: Bytes, s: FrameState)
    requires StaysAhead(b, s)
    ensures !CountsFromTheEnd(b, s)
    ensures FrameTurn(b, s).GoesOn? ==> StaysAhead(b, FrameTurn(b, s).state)
  {
    hide FrameTurn, CountsFromTheEnd;
    assert FrameLoop(b, s, 0) == GoesOn(s);
    if FrameTurn(b, s).GoesOn? {
      forall turns: nat | FrameLoop(b, FrameTurn(b, s).state, turns).GoesOn?
        ensures !CountsFromTheEnd(b, FrameLoop(b, FrameTurn(b, s).state, turns).state)
      {
        assert FrameLoop(b, s, turns + 1) == FrameLoop(b, FrameTurn(b, s).state, turns);
      }
    }
  }

  lemma {:induction false} LoopIsStable(b: Bytes, b': Bytes, s: FrameState, turns: nat)
    requires b <= b' && 0 <= s.position <= |b| && StaysAhead(b, s)
    requires FrameLoop(b, s, turns).Ends? && !FrameLoop(b, s, turns).answer.NeedMore?
    ensures FrameLoop(b', s, turns) == FrameLoop(b, s, turns)
    decreases turns
  {
    hide FrameTurn, CountsFromTheEnd, StaysAhead;
    StaysAheadNext(b, s);
    TurnIsStable(b, b', s);
    if FrameTurn(b, s).GoesOn? { LoopIsStable(b, b', FrameTurn(b, s).state, turns - 1); }
  }

  /** Bytes that put a terminator where a turn looks `back` bytes from the end, and nothing behind. */
  function Padding(back: nat): Bytes
    requires back >= 3
  {
    CRLF + seq(back - 2, _ => 'x')
  }

  lemma PaddedSlices(b: Bytes, back: nat)
    requires back >= 3
    ensures var b' := b + Padding(back);
            Slice(b', 0 - back, 2 - back) == CRLF && FindFrom(b', CRLF, 2 - back) == -1
  {
    var b' := b + Padding(back);
    assert b'[|b|..|b| + 2] == CRLF;
    FindIsFirst(b', CRLF, |b| + 2);
    forall k | |b| + 2 <= k ensures !At(b', CRLF, k) { AtCrlf(b', k); }
  }

  /** Where a turn counts from the end, some longer buffer needs more. */
  lemma CountingCanNeedMore(b: Bytes, s: FrameState)
    requires 0 <= s.position <= |b| && s.decodedSize <= MAX_BODY_BYTES && CountsFromTheEnd(b, s)
    ensures Back(b, s) >= 3 && FrameLoop(b + Padding(Back(b, s)), s, 2) == Ends(NeedMore)
  {
    hide SizeOf, At, Find, Slice, FrameTrailers, Padding;
    var end := Find(b, CRLF, s.position);
    SliceExtends(b, b, s.position, end);
    var n := SizeOf(b[s.position..end]).n;
    var back := Back(b, s);
    var b' := b + Padding(back);
    FindExtends(b, b', CRLF, s.position);
    SliceExtends(b, b', s.position, end);
    PaddedSlices(b, back);
    var next := FrameState(end + 2 + n + 2, s.decodedSize + n);
    assert FrameTurn(b', s) == GoesOn(next);
    assert FrameTurn(b', next) == Ends(NeedMore);
    hide FrameTurn;
    assert FrameLoop(b', next, 1) == Ends(NeedMore);
  }

  lemma TurnKeepsTheLimit(b: Bytes, s: FrameState)
    ensures FrameTurn(b, s).GoesOn? ==>
              FrameTurn(b, s).state.decodedSize <= MAX_BODY_BYTES && FrameTurn(b, s).state.position <= |b|
  {
    hide SizeOf, Find, Slice;
  }

  /** Nothing before turn `turns` counts from the end. */
  ghost predicate AheadUntil(b: Bytes, s: FrameState, turns: nat) {
    forall k: nat :: k < turns && FrameLoop(b, s, k).GoesOn? ==> !CountsFromTheEnd(b, FrameLoop(b, s, k).state)
  }

  lemma AheadUntilNext(b: Bytes, s: FrameState, turns: nat)
    requires turns > 0 && AheadUntil(b, s, turns) && FrameLoop(b, s, turns).GoesOn?
    ensures !CountsFromTheEnd(b, s) && FrameTurn(b, s).GoesOn?
    ensures var next := FrameTurn(b, s).state;
            AheadUntil(b, next, turns - 1) && FrameLoop(b, next, turns - 1) == FrameLoop(b, s, turns)
  {
    hide FrameTurn, CountsFromTheEnd;
    assert FrameLoop(b, s, 0) == GoesOn(s);
    var next := FrameTurn(b, s).state;
    forall k: nat | k < turns - 1 && FrameLoop(b, next, k).GoesOn?
      ensures !CountsFromTheEnd(b, FrameLoop(b, next, k).state)
    {
      assert FrameLoop(b, s, k + 1) == FrameLoop(b, next, k);
    }
  }

  /** Up to its first turn that counts from the end, the loop does the same on every longer buffer. */
  lemma {:induction false} SameUntil(b: Bytes, b': Bytes, s: FrameState, turns: nat)
    requires b <= b' && 0 <= s.position <= |b| && s.decodedSize <= MAX_BODY_BYTES
    requires AheadUntil(b, s, turns) && FrameLoop(b, s, turns).GoesOn?
    ensures FrameLoop(b', s, turns) == FrameLoop(b, s, turns)
    ensures var d := FrameLoop(b, s, turns).state; 0 <= d.position <= |b| && d.decodedSize <= MAX_BODY_BYTES
    decreases turns
  {
    hide FrameTurn, CountsFromTheEnd, AheadUntil;
    if turns > 0 {
      AheadUntilNext(b, s, turns);
      TurnIsStable(b, b', s);
      TurnKeepsTheLimit(b, s);
      SameUntil(b, b', FrameTurn(b, s).state, turns - 1);
    }
  }

  /** Where the loop looks back, padding of that length makes it need more. */
  lemma PaddingNeedsMore(b: Bytes, back: nat)
    requires LooksBack(b, back)
    ensures back >= 3 && Measures(b + Padding(back), NeedMore)
  {
    hide FrameLoop, CountsFromTheEnd, Padding, Back;
    var turns: nat :|
      && FrameLoop(b, FRAME_START, turns).GoesOn? && CountsFromTheEnd(b, FrameLoop(b, FRAME_START, turns).state)
      && Back(b, FrameLoop(b, FRAME_START, turns).state) == back
      && AheadUntil(b, FRAME_START, turns);
    var s := FrameLoop(b, FRAME_START, turns).state;
    SameUntil(b, b, FRAME_START, turns);
    CountingCanNeedMore(b, s);
    var b' := b + Padding(back);
    SameUntil(b, b', FRAME_START, turns);
    FrameLoopAdds(b', FRAME_START, turns, 2);
    assert FrameLoop(b', FRAME_START, turns + 2) == Ends(NeedMore);
  }

  /** One byte more, and a turn that found its terminator at the end does not find it there. */
  lemma OneByteMisses(b: Bytes, s: FrameState, x: char)
    requires 0 <= s.position <= |b| && s.decodedSize <= MAX_BODY_BYTES && CountsFromTheEnd(b, s)
    ensures FrameTurn(b, s).Ends? ==> FrameTurn(b, s) == Ends(BadChunk)
    ensures FrameTurn(b, s).GoesOn? ==> FrameTurn(b + [x], s) == Ends(BadChunk)
  {
    hide SizeOf, At, Find, Slice, FrameTrailers, FrameTurn;
    var end, b' := Find(b, CRLF, s.position), b + [x];
    SliceExtends(b, b', s.position, end);
    FindExtends(b, b', CRLF, s.position);
    CrlfMoves(b, x, end + 2 + SizeOf(b[s.position..end]).n);
    FrameTurnReads(b, s);
    FrameTurnReads(b', s);
  }

  lemma CrlfMoves(b: Bytes, x: char, i: int)
    requires i <= -3
    ensures Slice(b, i, i + 2) == CRLF ==> Slice(b + [x], i, i + 2) != CRLF
  {
    var b' := b + [x];
    if Slice(b, i, i + 2) == CRLF {
      assert |b| + i >= 0 && Slice(b, i, i + 2)[1] == b[|b| + i + 1] == '\n';
      assert Slice(b', i, i + 2)[0] == b'[|b| + 1 + i] == '\n';
    }
  }

  /** So any other verdict than malformed does not survive a single byte. */
  lemma OneByteIsBad(b: Bytes, v: FrameVerdict, x: char)
    requires Measures(b, v) && !v.BadChunk? && !v.NeedMore? && ReachesTheEnd(b)
    ensures Measures(b + [x], BadChunk)
  {
    hide FrameLoop, CountsFromTheEnd, Back, FrameTurn;
    var reached: nat :| FrameLoop(b, FRAME_START, reached).GoesOn?
                        && CountsFromTheEnd(b, FrameLoop(b, FRAME_START, reached).state);
    var back := SomeTurnLooksBack(b, reached);
    var turns: nat :|
      && FrameLoop(b, FRAME_START, turns).GoesOn? && CountsFromTheEnd(b, FrameLoop(b, FRAME_START, turns).state)
      && Back(b, FrameLoop(b, FRAME_START, turns).state) == back
      && AheadUntil(b, FRAME_START, turns);
    var s := FrameLoop(b, FRAME_START, turns).state;
    SameUntil(b, b + [x], FRAME_START, turns);
    OneByteMisses(b, s, x);
    OneTurn(b, turns);
    OneTurn(b + [x], turns);
    if FrameTurn(b, s).Ends? {
      assert Measures(b, BadChunk);
      MeasuresOnce(b, v, BadChunk);
    }
  }

  lemma OneTurn(b: Bytes, turns: nat)
    requires FrameLoop(b, FRAME_START, turns).GoesOn?
    ensures FrameLoop(b, FRAME_START, turns + 1) == FrameTurn(b, FrameLoop(b, FRAME_START, turns).state)
  {
    FrameLoopAdds(b, FRAME_START, turns, 1);
    hide FrameTurn;
  }

  /** Main result on stability: a verdict of the framer's loop stands whatever arrives next, if and
      only if no turn looks for a terminator at the end of the buffer. */
  lemma VerdictStandsExactly(b: Bytes, v: FrameVerdict)
    requires Measures(b, v) && !v.NeedMore?
    ensures (forall b' :: b <= b' ==> Measures(b', v)) <==> !ReachesTheEnd(b)
  {
    hide FrameLoop, CountsFromTheEnd, Padding;
    if ReachesTheEnd(b) {
      var turns: nat :| FrameLoop(b, FRAME_START, turns).GoesOn?
                        && CountsFromTheEnd(b, FrameLoop(b, FRAME_START, turns).state);
      var back := SomeTurnLooksBack(b, turns);
      PaddingNeedsMore(b, back);
      var b' := b + Padding(back);
      assert b <= b' && Measures(b', NeedMore);
      if Measures(b', v) { MeasuresOnce(b', v, NeedMore); }
    } else {
      var turns: nat :| FrameLoop(b, FRAME_START, turns) == Ends(v);
      assert StaysAhead(b, FRAME_START);
      forall b' | b <= b' ensures Measures(b', v) { LoopIsStable(b, b', FRAME_START, turns); }
    }
  }

  // ----- when the loops end -----

  lemma {:induction false} FrameLoopAdds(b: Bytes, s: FrameState, m: nat, n: nat)
    requires FrameLoop(b, s, m).GoesOn?
    ensures FrameLoop(b, s, m + n) == FrameLoop(b, FrameLoop(b, s, m).state, n)
    decreases m
  {
    hide FrameTurn;
    if m > 0 { FrameLoopAdds(b, FrameTurn(b, s).state, m - 1, n); }
  }

  lemma FrameWentOn(b: Bytes, s: FrameState, m: nat, n: nat)
    requires m <= n && FrameLoop(b, s, n).GoesOn?
    ensures FrameLoop(b, s, m).GoesOn?
  {
    if FrameLoop(b, s, m).Ends? { FrameLoopStays(b, s, m, n); }
  }

  /** What a turn does depends on the place it starts from; a smaller count does not stop it. */
  lemma FrameTurnAtPlace(b: Bytes, s: FrameState, t: FrameState)
    requires s.position <= |b| && t.position <= |b| && Index(b, s.position) == Index(b, t.position)
    requires t.decodedSize <= s.decodedSize && FrameTurn(b, s).GoesOn?
    ensures var next := FrameTurn(b, s).state;
            FrameTurn(b, t) == GoesOn(FrameState(next.position, next.decodedSize - (s.decodedSize - t.decodedSize)))
  {
    hide SizeOf, Find;
  }

  lemma {:induction false} SmallerCountGoesOn(b: Bytes, s: FrameState, decodedSize: int, turns: nat)
    requires s.position <= |b| && decodedSize <= s.decodedSize && FrameLoop(b, s, turns).GoesOn?
    ensures var d := FrameLoop(b, s, turns).state;
            FrameLoop(b, FrameState(s.position, decodedSize), turns)
            == GoesOn(FrameState(d.position, d.decodedSize - (s.decodedSize - decodedSize)))
    decreases turns
  {
    hide FrameTurn;
    if turns > 0 {
      FrameWentOn(b, s, 1, turns);
      assert FrameLoop(b, s, 1) == FrameTurn(b, s);
      var t, next := FrameState(s.position, decodedSize), FrameTurn(b, s).state;
      FrameTurnAtPlace(b, s, t);
      TurnKeepsTheLimit(b, s);
      SmallerCountGoesOn(b, next, next.decodedSize - (s.decodedSize - decodedSize), turns - 1);
    }
  }

  /** A loop that has come back once goes on for ever. */
  lemma {:induction false} CircleGoesOn(b: Bytes, s: FrameState, lap: nat, decodedSize: int, turns: nat)
    requires lap > 0 && s.position <= |b| && decodedSize <= s.decodedSize && FrameLoop(b, s, lap).GoesOn?
    requires FrameLoop(b, s, lap).state.position == s.position
    requires FrameLoop(b, s, lap).state.decodedSize <= s.decodedSize
    ensures FrameLoop(b, FrameState(s.position, decodedSize), turns).GoesOn?
    decreases turns
  {
    hide FrameLoop;
    var t := FrameState(s.position, decodedSize);
    if turns <= lap {
      FrameWentOn(b, s, turns, lap);
      SmallerCountGoesOn(b, s, decodedSize, turns);
    } else {
      SmallerCountGoesOn(b, s, decodedSize, lap);
      FrameLoopAdds(b, t, lap, turns - lap);
      CircleGoesOn(b, s, lap, FrameLoop(b, t, lap).state.decodedSize, turns - lap);
    }
  }

  /** Two turns of the framer start from the same position, the later one with no larger count. */
  ghost predicate FramerComesBack(b: Bytes) {
    exists m: nat, n: nat ::
      && m < n && FrameLoop(b, FRAME_START, m).GoesOn? && FrameLoop(b, FRAME_START, n).GoesOn?
      && FrameLoop(b, FRAME_START, m).state.position == FrameLoop(b, FRAME_START, n).state.position
      && FrameLoop(b, FRAME_START, n).state.decodedSize <= FrameLoop(b, FRAME_START, m).state.decodedSize
  }

  lemma {:induction false} FramePositions(b: Bytes, s: FrameState, turns: nat)
    requires s.position <= |b| && s.decodedSize <= MAX_BODY_BYTES && FrameLoop(b, s, turns).GoesOn?
    ensures FrameLoop(b, s, turns).state.position <= |b| && FrameLoop(b, s, turns).state.decodedSize <= MAX_BODY_BYTES
    decreases turns
  {
    hide FrameTurn;
    if turns > 0 {
      TurnKeepsTheLimit(b, s);
      FramePositions(b, FrameTurn(b, s).state, turns - 1);
    }
  }

  // ----- a run can only visit so many places, and each only so often -----

  /** The count with which each place of the buffer was visited last. */
  type Visits = seq<Option<int>>

  function Unvisited(v: Visits): nat {
    if v == [] then 0 else Unvisited(v[..|v| - 1]) + if v[|v| - 1].None? then 1 else 0
  }

  /** How far the counts can still rise. */
  function Room(v: Visits, top: int): nat {
    if v == [] then 0
    else
      var last := v[|v| - 1];
      Room(v[..|v| - 1], top) + if last.Some? && last.value <= top then top - last.value else 0
  }

  lemma {:induction false} VisitCosts(v: Visits, i: nat, count: int, top: int)
    requires i < |v| && count <= top && (v[i].Some? ==> v[i].value < count)
    ensures var v' := v[i := Some(count)];
            if v[i].None? then Unvisited(v') < Unvisited(v)
            else Unvisited(v') == Unvisited(v) && Room(v', top) < Room(v, top)
    decreases |v|
  {
    var last := |v| - 1;
    var v' := v[i := Some(count)];
    if i == last {
      assert v'[..last] == v[..last];
    } else {
      assert v'[..last] == v[..last][i := Some(count)] && v'[last] == v[last];
      VisitCosts(v[..last], i, count, top);
    }
  }

  // ----- the framer -----

  /** Some turn before `turns` started from place `i` with the given count. */
  ghost predicate FramerWasAt(b: Bytes, turns: nat, i: nat, count: int) {
    exists m: nat ::
      && m < turns && FrameLoop(b, FRAME_START, m).GoesOn?
      && Index(b, FrameLoop(b, FRAME_START, m).state.position) == i
      && FrameLoop(b, FRAME_START, m).state.decodedSize == count
  }

  /** Back at a place with no larger count: the next turn ends the loop, or comes back for good. */
  lemma SamePlaceAgain(b: Bytes, m: nat, n: nat)
    requires m < n && FrameLoop(b, FRAME_START, m).GoesOn? && FrameLoop(b, FRAME_START, n).GoesOn?
    requires var s, t := FrameLoop(b, FRAME_START, m).state, FrameLoop(b, FRAME_START, n).state;
             Index(b, s.position) == Index(b, t.position) && t.decodedSize <= s.decodedSize
    ensures FramerComesBack(b)
  {
    hide FrameTurn;
    var s, t := FrameLoop(b, FRAME_START, m).state, FrameLoop(b, FRAME_START, n).state;
    FramePositions(b, FRAME_START, m);
    FramePositions(b, FRAME_START, n);
    FrameWentOn(b, FRAME_START, m + 1, n);
    FrameLoopAdds(b, FRAME_START, m, 1);
    FrameLoopAdds(b, FRAME_START, n, 1);
    assert FrameLoop(b, s, 1) == FrameTurn(b, s) && FrameLoop(b, t, 1) == FrameTurn(b, t);
    FrameTurnAtPlace(b, s, t);
    assert FrameLoop(b, FRAME_START, m + 1).state.position == FrameLoop(b, FRAME_START, n + 1).state.position;
  }

  lemma {:induction false} FramerEndsOrComesBack(b: Bytes, turns: nat, v: Visits)
    requires |v| == |b| + 1 && FrameLoop(b, FRAME_START, turns).GoesOn?
    requires forall i :: 0 <= i < |v| && v[i].Some? ==> FramerWasAt(b, turns, i, v[i].value)
    ensures FramerHalts(b) || FramerComesBack(b)
    decreases Unvisited(v), Room(v, MAX_BODY_BYTES)
  {
    hide FrameTurn, FramerComesBack, FrameLoop;
    var s := FrameLoop(b, FRAME_START, turns).state;
    FramePositions(b, FRAME_START, turns);
    var i := Index(b, s.position);
    if v[i].Some? && s.decodedSize <= v[i].value {
      var m: nat :| m < turns && FrameLoop(b, FRAME_START, m).GoesOn?
                    && Index(b, FrameLoop(b, FRAME_START, m).state.position) == i
                    && FrameLoop(b, FRAME_START, m).state.decodedSize == v[i].value;
      SamePlaceAgain(b, m, turns);
    } else if FrameLoop(b, FRAME_START, turns + 1).Ends? {
      assert Measures(b, FrameLoop(b, FRAME_START, turns + 1).answer);
    } else {
      var v' := v[i := Some(s.decodedSize)];
      VisitCosts(v, i, s.decodedSize, MAX_BODY_BYTES);
      forall j | 0 <= j < |v'| && v'[j].Some? ensures FramerWasAt(b, turns + 1, j, v'[j].value) {
        if j != i { assert FramerWasAt(b, turns, j, v[j].value); }
      }
      FramerEndsOrComesBack(b, turns + 1, v');
    }
  }

  /** Main result on termination: the framer's loop ends if and only if it never comes back to a
      position with no larger count. */
  lemma FramerHaltsExactly(b: Bytes)
    ensures FramerHalts(b) <==> !FramerComesBack(b)
  {
    hide FrameLoop;
    if FramerComesBack(b) && FramerHalts(b) {
      var m: nat, n: nat :|
        && m < n && FrameLoop(b, FRAME_START, m).GoesOn? && FrameLoop(b, FRAME_START, n).GoesOn?
        && FrameLoop(b, FRAME_START, m).state.position == FrameLoop(b, FRAME_START, n).state.position
        && FrameLoop(b, FRAME_START, n).state.decodedSize <= FrameLoop(b, FRAME_START, m).state.decodedSize;
      var v :| Measures(b, v);
      var turns: nat :| FrameLoop(b, FRAME_START, turns) == Ends(v);
      ComingBackGoesOn(b, m, n, turns);
    }
    if !FramerComesBack(b) {
      assert FrameLoop(b, FRAME_START, 0).GoesOn? by { FrameLoopStart(b); }
      FramerEndsOrComesBack(b, 0, seq(|b| + 1, _ => None));
    }
  }

  lemma FrameLoopStart(b: Bytes)
    ensures FrameLoop(b, FRAME_START, 0).GoesOn?
  {}

  lemma ComingBackGoesOn(b: Bytes, m: nat, n: nat, turns: nat)
    requires m < n && FrameLoop(b, FRAME_START, m).GoesOn? && FrameLoop(b, FRAME_START, n).GoesOn?
    requires FrameLoop(b, FRAME_START, m).state.position == FrameLoop(b, FRAME_START, n).state.position
    requires FrameLoop(b, FRAME_START, n).state.decodedSize <= FrameLoop(b, FRAME_START, m).state.decodedSize
    ensures FrameLoop(b, FRAME_START, turns).GoesOn?
  {
    hide FrameLoop;
    var s := FrameLoop(b, FRAME_START, m).state;
    FramePositions(b, FRAME_START, m);
    FrameLoopAdds(b, FRAME_START, m, n - m);
    CircleGoesOn(b, s, n - m, s.decodedSize, turns);
    FrameLoopAdds(b, FRAME_START, m, turns);
    FrameWentOn(b, FRAME_START, turns, m + turns);
  }

  // ----- the decoder -----

  lemma {:induction false} DecodeLoopAdds(b: Bytes, s: DecodeState, m: nat, n: nat)
    requires DecodeLoop(b, s, m).GoesOn?
    ensures DecodeLoop(b, s, m + n) == DecodeLoop(b, DecodeLoop(b, s, m).state, n)
    decreases m
  {
    hide DecodeTurn;
    if m > 0 { DecodeLoopAdds(b, DecodeTurn(b, s).state, m - 1, n); }
  }

  lemma DecodeWentOn(b: Bytes, s: DecodeState, m: nat, n: nat)
    requires m <= n && DecodeLoop(b, s, n).GoesOn?
    ensures DecodeLoop(b, s, m).GoesOn?
  {
    if DecodeLoop(b, s, m).Ends? { DecodeLoopStays(b, s, m, n); }
  }

  lemma DecodeTurnGrows(b: Bytes, s: DecodeState)
    ensures DecodeTurn(b, s).GoesOn? ==>
              var next := DecodeTurn(b, s).state;
              s.decoded <= next.decoded && |next.decoded| <= MAX_BODY_BYTES && next.position <= |b|
  {
    hide SizeOf, Find, Slice;
  }

  lemma {:induction false} DecodedGrows(b: Bytes, s: DecodeState, turns: nat)
    requires s.position <= |b| && |s.decoded| <= MAX_BODY_BYTES && DecodeLoop(b, s, turns).GoesOn?
    ensures var d := DecodeLoop(b, s, turns).state;
            s.decoded <= d.decoded && |d.decoded| <= MAX_BODY_BYTES && d.position <= |b|
    decreases turns
  {
    hide DecodeTurn;
    if turns > 0 {
      DecodeTurnGrows(b, s);
      DecodedGrows(b, DecodeTurn(b, s).state, turns - 1);
    }
  }

  lemma DecodeTurnAtPlace(b: Bytes, s: DecodeState, t: DecodeState)
    requires s.position <= |b| && t.position <= |b| && Index(b, s.position) == Index(b, t.position)
    requires s.decoded == t.decoded
    ensures DecodeTurn(b, s) == DecodeTurn(b, t)
  {
    hide SizeOf, Find;
  }

  /** Two turns of the decoder start from the same position with the same data. */
  ghost predicate DecoderComesBack(b: Bytes) {
    exists m: nat, n: nat ::
      && m < n && DecodeLoop(b, DECODE_START, m).GoesOn?
      && DecodeLoop(b, DECODE_START, n) == DecodeLoop(b, DECODE_START, m)
  }

  lemma {:induction false} DecodeCircleGoesOn(b: Bytes, s: DecodeState, lap: nat, turns: nat)
    requires lap > 0 && DecodeLoop(b, s, lap) == GoesOn(s)
    ensures DecodeLoop(b, s, turns).GoesOn?
    decreases turns
  {
    hide DecodeLoop;
    if turns <= lap {
      DecodeWentOn(b, s, turns, lap);
    } else {
      DecodeLoopAdds(b, s, lap, turns - lap);
      DecodeCircleGoesOn(b, s, lap, turns - lap);
    }
  }

  ghost predicate DecoderWasAt(b: Bytes, turns: nat, i: nat, count: int) {
    exists m: nat ::
      && m < turns && DecodeLoop(b, DECODE_START, m).GoesOn?
      && Index(b, DecodeLoop(b, DECODE_START, m).state.position) == i
      && |DecodeLoop(b, DECODE_START, m).state.decoded| == count
  }

  lemma SamePlaceDecoded(b: Bytes, m: nat, n: nat)
    requires m < n && DecodeLoop(b, DECODE_START, m).GoesOn? && DecodeLoop(b, DECODE_START, n).GoesOn?
    requires var s, t := DecodeLoop(b, DECODE_START, m).state, DecodeLoop(b, DECODE_START, n).state;
             Index(b, s.position) == Index(b, t.position) && |t.decoded| <= |s.decoded|
    ensures DecoderComesBack(b)
  {
    hide DecodeTurn;
    var s, t := DecodeLoop(b, DECODE_START, m).state, DecodeLoop(b, DECODE_START, n).state;
    DecodedGrows(b, DECODE_START, m);
    DecodedGrows(b, DECODE_START, n);
    DecodeLoopAdds(b, DECODE_START, m, n - m);
    DecodedGrows(b, s, n - m);
    DecodeWentOn(b, DECODE_START, m + 1, n);
    DecodeLoopAdds(b, DECODE_START, m, 1);
    DecodeLoopAdds(b, DECODE_START, n, 1);
    assert DecodeLoop(b, s, 1) == DecodeTurn(b, s) && DecodeLoop(b, t, 1) == DecodeTurn(b, t);
    DecodeTurnAtPlace(b, s, t);
    assert DecodeLoop(b, DECODE_START, n + 1) == DecodeLoop(b, DECODE_START, m + 1);
  }

  lemma {:induction false} DecoderEndsOrComesBack(b: Bytes, turns: nat, v: Visits)
    requires |v| == |b| + 1 && DecodeLoop(b, DECODE_START, turns).GoesOn?
    requires forall i :: 0 <= i < |v| && v[i].Some? ==> DecoderWasAt(b, turns, i, v[i].value)
    ensures DecoderHalts(b) || DecoderComesBack(b)
    decreases Unvisited(v), Room(v, MAX_BODY_BYTES)
  {
    hide DecodeTurn, DecoderComesBack, DecodeLoop;
    var s := DecodeLoop(b, DECODE_START, turns).state;
    DecodedGrows(b, DECODE_START, turns);
    var i := Index(b, s.position);
    if v[i].Some? && |s.decoded| <= v[i].value {
      var m: nat :| m < turns && DecodeLoop(b, DECODE_START, m).GoesOn?
                    && Index(b, DecodeLoop(b, DECODE_START, m).state.position) == i
                    && |DecodeLoop(b, DECODE_START, m).state.decoded| == v[i].value;
      SamePlaceDecoded(b, m, turns);
    } else if DecodeLoop(b, DECODE_START, turns + 1).Ends? {
      assert Decodes(b, DecodeLoop(b, DECODE_START, turns + 1).answer);
    } else {
      var v' := v[i := Some(|s.decoded|)];
      VisitCosts(v, i, |s.decoded|, MAX_BODY_BYTES);
      forall j | 0 <= j < |v'| && v'[j].Some? ensures DecoderWasAt(b, turns + 1, j, v'[j].value) {
        if j != i { assert DecoderWasAt(b, turns, j, v[j].value); }
      }
      DecoderEndsOrComesBack(b, turns + 1, v');
    }
  }

  /** The decoder's loop ends if and only if it never comes back to a position with the same data. */
  lemma DecoderHaltsExactly(b: Bytes)
    ensures DecoderHalts(b) <==> !DecoderComesBack(b)
  {
    hide DecodeLoop;
    if DecoderComesBack(b) && DecoderHalts(b) {
      var m: nat, n: nat :|
        m < n && DecodeLoop(b, DECODE_START, m).GoesOn?
        && DecodeLoop(b, DECODE_START, n) == DecodeLoop(b, DECODE_START, m);
      var r :| Decodes(b, r);
      var turns: nat :| DecodeLoop(b, DECODE_START, turns) == Ends(r);
      var s := DecodeLoop(b, DECODE_START, m).state;
      DecodeLoopAdds(b, DECODE_START, m, n - m);
      DecodeCircleGoesOn(b, s, n - m, turns);
      DecodeLoopAdds(b, DECODE_START, m, turns);
      DecodeWentOn(b, DECODE_START, turns, m + turns);
    }
    if !DecoderComesBack(b) {
      assert DecodeLoop(b, DECODE_START, 0).GoesOn? by { DecodeLoopStart(b); }
      DecoderEndsOrComesBack(b, 0, seq(|b| + 1, _ => None));
    }
  }

  lemma DecodeLoopStart(b: Bytes)
    ensures DecodeLoop(b, DECODE_START, 0).GoesOn?
  {}

  // ----- when only sentences of the grammar are accepted -----

  ghost predicate IsFittingSentence(b: Bytes) {
    exists p :: WellFormed(p) && |Content(p)| <= MAX_BODY_BYTES && Print(p) == b
  }

  /** What the framer measures is a sentence of the grammar if and only if no size in it has a minus
      sign. */
  lemma MeasuredSentencesExactly(b: Bytes, n: nat)
    requires n <= |b| && Measures(b, Complete(n))
    ensures IsFittingSentence(b[..n]) <==> !Frame(b).SignedSize?
  {
    hide Measures, Frame, WellFormed;
    FramerIsTheGrammar(b, n);
    var c := b[..n];
    if IsFittingSentence(c) {
      var p :| WellFormed(p) && |Content(p)| <= MAX_BODY_BYTES && Print(p) == c;
      assert exists q :: WellFormed(q) && |Content(q)| <= MAX_BODY_BYTES && Print(q) == b[..n];
      assert Frame(b) == Complete(n);
    }
    if Frame(b) == Complete(n) {
      var p :| WellFormed(p) && |Content(p)| <= MAX_BODY_BYTES && Print(p) == b[..n];
      assert IsFittingSentence(c);
    }
    if !Frame(b).SignedSize? { FramerEnds(b, Complete(n)); }
  }

  /** The same for what the decoder accepts. */
  lemma DecodedSentencesExactly(b: Bytes, body: Bytes)
    requires Decodes(b, Data(body))
    ensures (exists p :: WellFormed(p) && Content(p) == body && |body| <= MAX_BODY_BYTES && Print(p) == b)
            <==> Decode(b) != Undecodable(MinusSize)
  {
    hide Decodes, Decode, WellFormed;
    DecoderIsTheGrammar(b, body);
    if Decode(b) != Undecodable(MinusSize) { DecoderEnds(b, Data(body)); }
  }

  // ----- no minus sign -----

  lemma UnsignedTurnIsAhead(b: Bytes, position: nat, decodedSize: nat)
    requires position <= |b| && !FrameChunks(b, position, decodedSize).SignedSize?
    ensures !CountsFromTheEnd(b, FrameState(position, decodedSize))
  {
    hide SizeOf, Find, Slice, FrameTrailers;
    var end := Find(b, CRLF, position);
    if end >= 0 { SliceInside(b, position, end); }
  }

  /** A loop that meets no minus sign never counts from the end. */
  lemma {:induction false} UnsignedStaysAhead(b: Bytes, position: nat, decodedSize: nat, turns: nat)
    requires position <= |b| && !FrameChunks(b, position, decodedSize).SignedSize?
    requires FrameLoop(b, FrameState(position, decodedSize), turns).GoesOn?
    ensures !CountsFromTheEnd(b, FrameLoop(b, FrameState(position, decodedSize), turns).state)
    decreases turns
  {
    hide FrameTurn, FrameChunks, CountsFromTheEnd;
    if turns == 0 {
      UnsignedTurnIsAhead(b, position, decodedSize);
    } else {
      FrameTurnForward(b, position, decodedSize);
      var s := FrameTurn(b, FrameState(position, decodedSize)).state;
      UnsignedStaysAhead(b, s.position, s.decodedSize, turns - 1);
    }
  }

  lemma UnsignedIsStable(b: Bytes)
    requires !Frame(b).SignedSize?
    ensures !ReachesTheEnd(b) && FramerHalts(b)
  {
    hide FrameLoop, FrameChunks, CountsFromTheEnd;
    FramerEnds(b, Frame(b));
    forall turns: nat | FrameLoop(b, FRAME_START, turns).GoesOn?
      ensures !CountsFromTheEnd(b, FrameLoop(b, FRAME_START, turns).state)
    {
      UnsignedStaysAhead(b, 0, 0, turns);
    }
  }
}

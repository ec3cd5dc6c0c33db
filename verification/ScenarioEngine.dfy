/** `scenario_engine.py`: running the steps of a scenario, judging each response, and the report,
    event trace and score that must tell the same story. */
module ScenarioEngine {
  import opened Wrappers
  import ByteStrings
  import TextReading

  type Millis = r: real | r >= 0.0 witness 0.0

  datatype Expectation = Expectation(
    statuses: seq<int>, bodyContains: seq<string>, headerEquals: seq<(string, string)>, maxLatencyMs: Option<int>)

  datatype Step = Step(id: string, expectation: Expectation)

  /** The response as the assertions see it, after chaos. */
  datatype View = View(status: int, headers: map<string, string>, body: string)

  datatype Check =
    | StatusCheck | BodyCheck(token: string) | HeaderCheck(key: string, value: string) | LatencyCheck(limit: int)

  datatype Assertion = Assertion(check: Check, passed: bool)

  // ----- judging one response -----

  /** The checks an expectation stands for, in the order they are made. */
  function ChecksOf(e: Expectation): seq<Check> {
    [StatusCheck]
    + seq(|e.bodyContains|, i requires 0 <= i < |e.bodyContains| => BodyCheck(e.bodyContains[i]))
    + seq(|e.headerEquals|,
          i requires 0 <= i < |e.headerEquals| => HeaderCheck(e.headerEquals[i].0, e.headerEquals[i].1))
    + (if e.maxLatencyMs.Some? then [LatencyCheck(e.maxLatencyMs.value)] else [])
  }

  predicate Holds(c: Check, e: Expectation, view: View, latency: Millis) {
    match c
    case StatusCheck => view.status in e.statuses
    case BodyCheck(token) => ByteStrings.Contains(view.body, token)
    case HeaderCheck(key, value) => (if key in view.headers then view.headers[key] else "") == value
    case LatencyCheck(limit) => latency <= limit as real
  }

  /** `_evaluate_expectations`: one assertion per check, and the first failed one as the reason. */
  method EvaluateExpectations(e: Expectation, view: View, latency: Millis)
    returns (assertions: seq<Assertion>, reason: Option<Check>)
    ensures |assertions| == |ChecksOf(e)|
    ensures forall i :: 0 <= i < |assertions| ==>
              assertions[i] == Assertion(ChecksOf(e)[i], Holds(ChecksOf(e)[i], e, view, latency))
    ensures IsFirstFailure(assertions, reason)
  {
    hide Holds;
    var failures: seq<Check> := [];
    ghost var checks := ChecksOf(e);
    assertions, failures := Judge([], [], StatusCheck, e, view, latency);
    for i := 0 to |e.bodyContains|
      invariant |assertions| == 1 + i && Judged(assertions, failures, checks, e, view, latency)
    {
      assertions, failures := Judge(assertions, failures, BodyCheck(e.bodyContains[i]), e, view, latency);
    }
    for i := 0 to |e.headerEquals|
      invariant |assertions| == 1 + |e.bodyContains| + i && Judged(assertions, failures, checks, e, view, latency)
    {
      var check := HeaderCheck(e.headerEquals[i].0, e.headerEquals[i].1);
      assertions, failures := Judge(assertions, failures, check, e, view, latency);
    }
    if e.maxLatencyMs.Some? {
      assertions, failures := Judge(assertions, failures, LatencyCheck(e.maxLatencyMs.value), e, view, latency);
    }
    reason := if failures == [] then None else Some(failures[0]);
  }

  /** No reason when every assertion passed, otherwise the first that did not. */
  ghost predicate IsFirstFailure(assertions: seq<Assertion>, reason: Option<Check>) {
    match reason
    case None => forall i :: 0 <= i < |assertions| ==> assertions[i].passed
    case Some(c) => exists i :: 0 <= i < |assertions| && assertions[i] == Assertion(c, false)
                                && forall j :: 0 <= j < i ==> assertions[j].passed
  }

  /** The assertions made so far, and the failures among them. */
  ghost predicate Judged(assertions: seq<Assertion>, failures: seq<Check>, checks: seq<Check>, e: Expectation,
                         view: View, latency: Millis) {
    && |assertions| <= |checks|
    && (forall i :: 0 <= i < |assertions| ==> assertions[i] == Assertion(checks[i], Holds(checks[i], e, view, latency)))
    && IsFirstFailure(assertions, if failures == [] then None else Some(failures[0]))
  }

  method Judge(assertions: seq<Assertion>, failures: seq<Check>, c: Check, e: Expectation, view: View, latency: Millis)
    returns (assertions': seq<Assertion>, failures': seq<Check>)
    ensures assertions' == assertions + [Assertion(c, Holds(c, e, view, latency))]
    ensures IsFirstFailure(assertions, if failures == [] then None else Some(failures[0]))
            ==> IsFirstFailure(assertions', if failures' == [] then None else Some(failures'[0]))
  {
    hide Holds;
    var passed := Holds(c, e, view, latency);
    assertions' := assertions + [Assertion(c, passed)];
    failures' := if passed then failures else failures + [c];
    if failures != [] && IsFirstFailure(assertions, Some(failures[0])) {
      var i :| 0 <= i < |assertions| && assertions[i] == Assertion(failures[0], false)
               && forall j :: 0 <= j < i ==> assertions[j].passed;
      assert assertions'[i] == assertions[i];
    } else if !passed {
      assert assertions'[|assertions|] == Assertion(c, false);
    }
  }

  // ----- running a scenario -----

  datatype StepResult = StepResult(
    stepId: string, passed: bool, assertions: seq<Assertion>, reason: Option<Check>, latency: Millis)

  datatype TraceEvent =
    | RunStarted | StepStarted(index: nat) | StepCompleted(index: nat, passed: bool) | RunCompleted(passed: bool)

  datatype Report = Report(
    passed: bool, results: seq<StepResult>, passedSteps: nat, failedSteps: nat, failedAssertions: nat, score: int)

  /** What the world answers to step `i`, and how long it took. */
  type World = (nat, Step) -> (View, Millis)

  function CountPassed(results: seq<StepResult>): nat {
    if results == [] then 0 else CountPassed(results[..|results| - 1]) + if results[|results| - 1].passed then 1 else 0
  }

  function Unpassed(assertions: seq<Assertion>): nat {
    if assertions == [] then 0
    else Unpassed(assertions[..|assertions| - 1]) + if assertions[|assertions| - 1].passed then 0 else 1
  }

  function AllUnpassed(results: seq<StepResult>): nat {
    if results == [] then 0 else AllUnpassed(results[..|results| - 1]) + Unpassed(results[|results| - 1].assertions)
  }

  /** One started/completed pair per result. */
  function StepEvents(results: seq<StepResult>): seq<TraceEvent> {
    if results == [] then []
    else
      var i := |results| - 1;
      StepEvents(results[..i]) + [StepStarted(i), StepCompleted(i, results[i].passed)]
  }

  /** A result of step `i` of `steps`: its assertions are the checks of the step judged on what
      the world answered, and it passed exactly when all of them did. */
  ghost predicate IsResult(r: StepResult, i: nat, step: Step, world: World) {
    var (view, latency) := world(i, step);
    && r.stepId == step.id && r.latency == latency
    && |r.assertions| == |ChecksOf(step.expectation)|
    && (forall k :: 0 <= k < |r.assertions| ==>
          var check := ChecksOf(step.expectation)[k];
          r.assertions[k] == Assertion(check, Holds(check, step.expectation, view, latency)))
    && IsFirstFailure(r.assertions, r.reason)
    && r.passed == r.reason.None?
  }

  /** A step passes if and only if its response has one of the expected statuses, holds every token,
      has every header with its value (a missing one counts as empty), and came in time. */
  lemma StepPasses(r: StepResult, i: nat, step: Step, world: World)
    requires IsResult(r, i, step, world)
    ensures var (view, latency) := world(i, step);
            var e := step.expectation;
            r.passed <==>
              && view.status in e.statuses
              && (forall k :: 0 <= k < |e.bodyContains| ==> TextReading.Occurs(view.body, e.bodyContains[k]))
              && (forall k :: 0 <= k < |e.headerEquals| ==>
                    var (name, value) := e.headerEquals[k];
                    if name in view.headers then view.headers[name] == value else value == "")
              && (e.maxLatencyMs.Some? ==> latency <= e.maxLatencyMs.value as real)
  {
    var (view, latency) := world(i, step);
    var e := step.expectation;
    ResultPasses(r, i, step, world);
    ChecksHold(e, view, latency);
    hide ChecksOf, ByteStrings.Contains, TextReading.Occurs;
    forall k | 0 <= k < |e.bodyContains|
      ensures Holds(BodyCheck(e.bodyContains[k]), e, view, latency)
              <==> TextReading.Occurs(view.body, e.bodyContains[k])
    {
      TextReading.ContainsIsOccurrence(view.body, e.bodyContains[k]);
    }
  }

  lemma ResultPasses(r: StepResult, i: nat, step: Step, world: World)
    requires IsResult(r, i, step, world)
    ensures var (view, latency) := world(i, step);
            var checks := ChecksOf(step.expectation);
            r.passed <==> forall k :: 0 <= k < |checks| ==> Holds(checks[k], step.expectation, view, latency)
  {
    hide Holds, ChecksOf;
  }

  lemma ChecksInOrder(e: Expectation)
    ensures var checks, m, n := ChecksOf(e), |e.bodyContains|, |e.headerEquals|;
            && |checks| == 1 + m + n + (if e.maxLatencyMs.Some? then 1 else 0) && checks[0] == StatusCheck
            && (forall k :: 1 <= k <= m ==> checks[k] == BodyCheck(e.bodyContains[k - 1]))
            && (forall k :: 1 + m <= k <= m + n ==>
                  checks[k] == HeaderCheck(e.headerEquals[k - 1 - m].0, e.headerEquals[k - 1 - m].1))
            && (e.maxLatencyMs.Some? ==> checks[1 + m + n] == LatencyCheck(e.maxLatencyMs.value))
  {}

  lemma ChecksHold(e: Expectation, view: View, latency: Millis)
    ensures var checks := ChecksOf(e);
            (forall k :: 0 <= k < |checks| ==> Holds(checks[k], e, view, latency)) <==>
              && Holds(StatusCheck, e, view, latency)
              && (forall k :: 0 <= k < |e.bodyContains| ==> Holds(BodyCheck(e.bodyContains[k]), e, view, latency))
              && (forall k :: 0 <= k < |e.headerEquals| ==>
                    Holds(HeaderCheck(e.headerEquals[k].0, e.headerEquals[k].1), e, view, latency))
              && (e.maxLatencyMs.Some? ==> Holds(LatencyCheck(e.maxLatencyMs.value), e, view, latency))
  {
    hide Holds, ChecksOf;
    ChecksInOrder(e);
    var checks, m := ChecksOf(e), |e.bodyContains|;
    forall k | 0 <= k < m ensures checks[1 + k] == BodyCheck(e.bodyContains[k]) {}
    forall k | 0 <= k < |e.headerEquals|
      ensures checks[1 + m + k] == HeaderCheck(e.headerEquals[k].0, e.headerEquals[k].1)
    {}
  }

  lemma {:induction false} UnpassedIsZero(assertions: seq<Assertion>)
    ensures Unpassed(assertions) == 0 <==> forall i :: 0 <= i < |assertions| ==> assertions[i].passed
    decreases |assertions|
  {
    if assertions != [] { UnpassedIsZero(assertions[..|assertions| - 1]); }
  }

  lemma PassedMeansNoneUnpassed(r: StepResult, i: nat, step: Step, world: World)
    requires IsResult(r, i, step, world)
    ensures r.passed <==> Unpassed(r.assertions) == 0
  {
    hide Holds, ChecksOf, Unpassed;
    UnpassedIsZero(r.assertions);
  }

  function MaxLatency(results: seq<StepResult>): Millis {
    if results == [] then 0.0
    else
      var m := MaxLatency(results[..|results| - 1]);
      if results[|results| - 1].latency > m then results[|results| - 1].latency else m
  }

  /** What a run loses for its worst latency: a point for every whole hundred milliseconds, but
      twenty at most. */
  ghost predicate IsSlowness(points: int, worst: Millis) {
    && 0 <= points <= 20 && (points * 100) as real <= worst
    && (points < 20 ==> worst < ((points + 1) * 100) as real)
  }

  /** The score of `_build_analysis`. */
  function Score(failedSteps: nat, failedAssertions: nat, maxLatency: Millis): int {
    var slow := (maxLatency / 100.0).Floor;
    var score := 100 - failedSteps * 25 - failedAssertions * 5 - (if slow < 20 then slow else 20);
    if score < 0 then 0 else if score > 100 then 100 else score
  }

  /** The score is a hundred less 25 for each failed step, 5 for each failed assertion and the
      points lost for latency, and never below zero. */
  lemma ScoreMeaning(failedSteps: nat, failedAssertions: nat, worst: Millis) returns (lost: int)
    ensures IsSlowness(lost, worst)
    ensures var left := 100 - 25 * failedSteps - 5 * failedAssertions - lost;
            Score(failedSteps, failedAssertions, worst) == if left < 0 then 0 else left
  {
    var slow := (worst / 100.0).Floor;
    lost := if slow < 20 then slow else 20;
  }

  /** The largest latency of the results, zero if there are none. */
  method BottleneckLatency(results: seq<StepResult>) returns (latency: Millis)
    ensures latency == MaxLatency(results)
    ensures forall i :: 0 <= i < |results| ==> results[i].latency <= latency
    ensures if results == [] then latency == 0.0 else exists i :: 0 <= i < |results| && results[i].latency == latency
  {
    latency := 0.0;
    for i := 0 to |results|
      invariant latency == MaxLatency(results[..i])
      invariant forall j :: 0 <= j < i ==> results[j].latency <= latency
      invariant if i == 0 then latency == 0.0 else exists j :: 0 <= j < i && results[j].latency == latency
    {
      assert results[..i + 1][..i] == results[..i];
      if results[i].latency > latency { latency := results[i].latency; }
    }
    assert results[..|results|] == results;
  }

  /** The counters count: failed assertions of a result, and passed results of a run. */
  lemma {:induction false} UnpassedCounts(assertions: seq<Assertion>)
    ensures Unpassed(assertions) == |set i | 0 <= i < |assertions| && !assertions[i].passed|
    decreases |assertions|
  {
    if assertions != [] {
      var n := |assertions| - 1;
      var front := assertions[..n];
      UnpassedCounts(front);
      var all, some := set i | 0 <= i < |assertions| && !assertions[i].passed, set i | 0 <= i < n && !front[i].passed;
      assert all == if assertions[n].passed then some else some + {n};
    }
  }

  lemma {:induction false} PassedCounts(results: seq<StepResult>)
    ensures CountPassed(results) == |set i | 0 <= i < |results| && results[i].passed|
    decreases |results|
  {
    if results != [] {
      var n := |results| - 1;
      var front := results[..n];
      PassedCounts(front);
      var all, some := set i | 0 <= i < |results| && results[i].passed, set i | 0 <= i < n && front[i].passed;
      assert all == if results[n].passed then some + {n} else some;
    }
  }

  /** Where a run stands after some results: every result is that of its step, and under
      `stop_on_fail` only the last one can have failed. */
  ghost predicate IsRun(results: seq<StepResult>, steps: seq<Step>, world: World, stopOnFail: bool) {
    && |results| <= |steps|
    && (forall i :: 0 <= i < |results| ==> IsResult(results[i], i, steps[i], world))
    && (stopOnFail ==> forall i :: 0 <= i < |results| - 1 ==> results[i].passed)
  }

  method RunStep(i: nat, step: Step, world: World) returns (r: StepResult)
    ensures IsResult(r, i, step, world)
  {
    hide Holds, ChecksOf;
    var (view, latency) := world(i, step);
    var assertions, reason := EvaluateExpectations(step.expectation, view, latency);
    r := StepResult(step.id, reason.None?, assertions, reason, latency);
  }

  /** The counters and the trace tell what the results so far are. */
  ghost predicate Tallied(results: seq<StepResult>, passedSteps: nat, failedSteps: nat, failedAssertions: nat,
                          trace: seq<TraceEvent>) {
    && passedSteps == CountPassed(results) && passedSteps + failedSteps == |results|
    && failedAssertions == AllUnpassed(results)
    && (failedSteps == 0 <==> failedAssertions == 0)
    && (failedSteps == 0 <==> forall k :: 0 <= k < |results| ==> results[k].passed)
    && trace == [RunStarted] + StepEvents(results)
  }

  lemma NothingTallied()
    ensures Tallied([], 0, 0, 0, [RunStarted])
  {}

  lemma TallyTells(results: seq<StepResult>, passedSteps: nat, failedSteps: nat, failedAssertions: nat,
                   trace: seq<TraceEvent>)
    requires Tallied(results, passedSteps, failedSteps, failedAssertions, trace)
    ensures passedSteps == CountPassed(results) && passedSteps + failedSteps == |results|
    ensures failedAssertions == AllUnpassed(results) && (failedSteps == 0 <==> failedAssertions == 0)
    ensures failedSteps == 0 <==> forall k :: 0 <= k < |results| ==> results[k].passed
    ensures trace == [RunStarted] + StepEvents(results)
  {}

  lemma TallyGrows(results: seq<StepResult>, passedSteps: nat, failedSteps: nat, failedAssertions: nat,
                   trace: seq<TraceEvent>, r: StepResult)
    requires Tallied(results, passedSteps, failedSteps, failedAssertions, trace)
    requires r.passed <==> Unpassed(r.assertions) == 0
    ensures Tallied(results + [r], if r.passed then passedSteps + 1 else passedSteps,
                    if r.passed then failedSteps else failedSteps + 1,
                    if r.passed then failedAssertions else failedAssertions + Unpassed(r.assertions),
                    trace + [StepStarted(|results|)] + [StepCompleted(|results|, r.passed)])
  {
    hide Unpassed;
    var all, i := results + [r], |results|;
    assert all[..i] == results && all[i] == r;
    assert [RunStarted] + StepEvents(results) + [StepStarted(i)] + [StepCompleted(i, r.passed)]
        == [RunStarted] + (StepEvents(results) + [StepStarted(i), StepCompleted(i, r.passed)]);
    assert forall k :: 0 <= k < i ==> all[k] == results[k];
  }

  /** Main result: the results are those of a prefix of the steps, all of them unless
      `stop_on_fail` ended the run at its only failure; the counters count them, the event trace
      follows them, and the run passed exactly when its score is at least 80, while a failed run
      scores at most 70. */
  method RunScenario(steps: seq<Step>, stopOnFail: bool, world: World) returns (report: Report, trace: seq<TraceEvent>)
    ensures IsRun(report.results, steps, world, stopOnFail)
    ensures |report.results| == |steps|
            || (stopOnFail && report.results != [] && !report.results[|report.results| - 1].passed)
    ensures report.passedSteps == CountPassed(report.results)
    ensures report.passedSteps + report.failedSteps == |report.results|
    ensures report.failedAssertions == AllUnpassed(report.results)
    ensures report.passed <==> forall i :: 0 <= i < |report.results| ==> report.results[i].passed
    ensures trace == [RunStarted] + StepEvents(report.results) + [RunCompleted(report.passed)]
    ensures exists lost :: IsSlowness(lost, MaxLatency(report.results))
                           && var left := 100 - 25 * report.failedSteps - 5 * report.failedAssertions - lost;
                              report.score == if left < 0 then 0 else left
    ensures report.passed <==> report.score >= 80
    ensures !report.passed ==> report.score <= 70
  {
    hide IsResult, Tallied, IsSlowness;
    var results: seq<StepResult> := [];
    var passedSteps: nat, failedSteps: nat, failedAssertions: nat := 0, 0, 0;
    trace := [RunStarted];
    NothingTallied();
    var i := 0;
    var stopped := false;
    while i < |steps| && !stopped
      invariant i <= |steps| && |results| == i && IsRun(results, steps, world, stopOnFail)
      invariant Tallied(results, passedSteps, failedSteps, failedAssertions, trace)
      invariant stopped ==> stopOnFail && i > 0 && !results[i - 1].passed
      invariant stopOnFail && !stopped ==> forall k :: 0 <= k < i ==> results[k].passed
      decreases |steps| - i, !stopped
    {
      ghost var before := trace;
      trace := trace + [StepStarted(i)];
      var r := RunStep(i, steps[i], world);
      PassedMeansNoneUnpassed(r, i, steps[i], world);
      TallyGrows(results, passedSteps, failedSteps, failedAssertions, before, r);
      if r.passed {
        passedSteps := passedSteps + 1;
      } else {
        failedSteps := failedSteps + 1;
        failedAssertions := failedAssertions + Unpassed(r.assertions);
      }
      results := results + [r];
      trace := trace + [StepCompleted(i, r.passed)];
      stopped := !r.passed && stopOnFail;
      i := i + 1;
    }
    TallyTells(results, passedSteps, failedSteps, failedAssertions, trace);
    var maxLatency := BottleneckLatency(results);
    ghost var lost := ScoreMeaning(failedSteps, failedAssertions, maxLatency);
    report := Report(failedSteps == 0, results, passedSteps, failedSteps, failedAssertions,
                     Score(failedSteps, failedAssertions, maxLatency));
    trace := trace + [RunCompleted(report.passed)];
  }
}

/** `thread_pool.py` as the interleaving of its submitters, its workers and its shutdown. Every
    step is one action that the lock, the queue or the event makes atomic; a run is any sequence
    of enabled steps. */
module ThreadPool {

  /** Jobs are numbered in the order the queue accepted them. */
  datatype Item = Job(id: nat) | Sentinel

  /** Where a worker stands in `_worker_loop`. */
  datatype Phase =
    | AtLoop               // about to test the stop event
    | Fetching             // inside queue.get
    | Holding(item: Item)  // has an item that `_active_jobs` does not count yet
    | Counted(id: nat)     // counted, about to call the handler
    | Running(id: nat)     // inside the handler
    | Left                 // the loop has ended

  datatype Pool = Pool(
    capacity: nat,
    queue: seq<Item>,
    workers: seq<Phase>,
    activeJobs: int,
    stop: bool,
    shutdownStarted: bool,
    sentinelsToPut: nat,
    submitting: nat,       // submitters that have seen the stop event unset
    // history
    accepted: nat,
    dequeued: seq<nat>,
    handled: seq<nat>,     // handler calls, in order
    finished: seq<nat>)

  datatype Step =
    | CheckSubmit | PutJob
    | TestStop(w: nat) | Get(w: nat) | GetTimeout(w: nat) | TakeSentinel(w: nat)
    | CountUp(w: nat) | CallHandler(w: nat) | Complete(w: nat, raised: bool)
    | BeginShutdown | SetStop | PutSentinel

  function Start(workerCount: nat, queueSize: nat): Pool {
    Pool(queueSize, [], seq(workerCount, _ => AtLoop), 0, false, false, 0, 0, 0, [], [], [])
  }

  predicate Enabled(s: Pool, step: Step) {
    match step
    case CheckSubmit => !s.stop
    case PutJob => s.submitting > 0
    case TestStop(w) => w < |s.workers| && s.workers[w].AtLoop?
    case Get(w) => w < |s.workers| && s.workers[w].Fetching? && s.queue != []
    case GetTimeout(w) => w < |s.workers| && s.workers[w].Fetching?
    case TakeSentinel(w) => w < |s.workers| && s.workers[w] == Holding(Sentinel)
    case CountUp(w) => w < |s.workers| && s.workers[w].Holding? && s.workers[w].item.Job?
    case CallHandler(w) => w < |s.workers| && s.workers[w].Counted?
    case Complete(w, _) => w < |s.workers| && s.workers[w].Running?
    case BeginShutdown => !s.shutdownStarted
    case SetStop => s.shutdownStarted && !s.stop
    case PutSentinel => s.sentinelsToPut > 0 && |s.queue| < s.capacity
  }

  function Apply(s: Pool, step: Step): Pool
    requires Enabled(s, step)
  {
    match step
    case CheckSubmit => s.(submitting := s.submitting + 1)
    case PutJob =>
      if |s.queue| < s.capacity
      then s.(submitting := s.submitting - 1, queue := s.queue + [Job(s.accepted)], accepted := s.accepted + 1)
      else s.(submitting := s.submitting - 1)
    case TestStop(w) => s.(workers := s.workers[w := if s.stop then Left else Fetching])
    case Get(w) =>
      var item := s.queue[0];
      s.(queue := s.queue[1..], workers := s.workers[w := Holding(item)],
         dequeued := if item.Job? then s.dequeued + [item.id] else s.dequeued)
    case GetTimeout(w) => s.(workers := s.workers[w := AtLoop])
    case TakeSentinel(w) => s.(workers := s.workers[w := Left])
    case CountUp(w) =>
      s.(workers := s.workers[w := Counted(s.workers[w].item.id)], activeJobs := s.activeJobs + 1)
    case CallHandler(w) =>
      var id := s.workers[w].id;
      s.(workers := s.workers[w := Running(id)], handled := s.handled + [id])
    case Complete(w, raised) =>
      // a raising handler ends the worker once the finally block has run
      s.(workers := s.workers[w := if raised then Left else AtLoop],
         activeJobs := if s.activeJobs - 1 < 0 then 0 else s.activeJobs - 1,
         finished := s.finished + [s.workers[w].id])
    case BeginShutdown => s.(shutdownStarted := true)
    case SetStop => s.(stop := true, sentinelsToPut := |s.workers|)
    case PutSentinel => s.(queue := s.queue + [Sentinel], sentinelsToPut := s.sentinelsToPut - 1)
  }

  /** The states of a run; a step that is not enabled does not happen. */
  function Run(s: Pool, steps: seq<Step>): Pool
    decreases |steps|
  {
    if steps == [] then s
    else
      var before := Run(s, steps[..|steps| - 1]);
      if Enabled(before, steps[|steps| - 1]) then Apply(before, steps[|steps| - 1]) else before
  }

  /** `_is_drained_locked` */
  predicate Drained(s: Pool) { s.activeJobs == 0 && s.queue == [] }

  // ----- what the workers carry -----

  /** Ways to weigh a worker: does it have job `id` in hand, is it inside the handler with job `id`,
      does it have any job that `_active_jobs` counts, does it wait at the queue, has it taken a
      sentinel, has it left? */
  datatype Weight = Carrying(id: nat) | Handling(id: nat) | Counting | Waiting | Stopping | Gone

  function WeightOf(f: Weight, p: Phase): nat {
    var here := match f
                case Carrying(id) => p == Holding(Job(id)) || p == Counted(id) || p == Running(id)
                case Handling(id) => p == Running(id)
                case Counting => p.Counted? || p.Running?
                case Waiting => p.Fetching?
                case Stopping => p == Holding(Sentinel)
                case Gone => p.Left?;
    if here then 1 else 0
  }

  function Sum(ws: seq<Phase>, f: Weight): nat {
    if ws == [] then 0 else Sum(ws[..|ws| - 1], f) + WeightOf(f, ws[|ws| - 1])
  }

  lemma {:induction false} SumUpdate(ws: seq<Phase>, f: Weight, w: nat, p: Phase)
    requires w < |ws|
    ensures Sum(ws[w := p], f) + WeightOf(f, ws[w]) == Sum(ws, f) + WeightOf(f, p)
    decreases |ws|
  {
    hide WeightOf;
    var front, last := ws[..|ws| - 1], |ws| - 1;
    if w == last {
      assert ws[w := p][..last] == front;
    } else {
      assert ws[w := p][..last] == front[w := p] && ws[w := p][last] == ws[last];
      SumUpdate(front, f, w, p);
    }
  }

  lemma {:induction false} SumStart(n: nat, f: Weight)
    ensures Sum(seq(n, _ => AtLoop), f) == 0
    decreases n
  {
    var ws := seq(n, _ => AtLoop);
    if n > 0 {
      assert ws[..n - 1] == seq(n - 1, _ => AtLoop);
      SumStart(n - 1, f);
    }
  }

  lemma {:induction false} SumIsBounded(ws: seq<Phase>, f: Weight)
    ensures Sum(ws, f) <= |ws|
    decreases |ws|
  {
    if ws != [] { SumIsBounded(ws[..|ws| - 1], f); }
  }

  lemma {:induction false} SumBounds(ws: seq<Phase>, f: Weight, w: nat)
    requires w < |ws|
    ensures WeightOf(f, ws[w]) <= Sum(ws, f)
    decreases |ws|
  {
    if w < |ws| - 1 { SumBounds(ws[..|ws| - 1], f, w); }
  }

  lemma {:induction false} SomeoneWeighs(ws: seq<Phase>, f: Weight)
    requires Sum(ws, f) > 0
    ensures exists w :: 0 <= w < |ws| && WeightOf(f, ws[w]) > 0
    decreases |ws|
  {
    var last := |ws| - 1;
    if WeightOf(f, ws[last]) == 0 {
      SomeoneWeighs(ws[..last], f);
      var w :| 0 <= w < last && WeightOf(f, ws[..last][w]) > 0;
      assert WeightOf(f, ws[w]) > 0;
    }
  }

  lemma {:induction false} HandlersCarry(ws: seq<Phase>, id: nat)
    ensures Sum(ws, Handling(id)) <= Sum(ws, Carrying(id))
    decreases |ws|
  {
    if ws != [] { HandlersCarry(ws[..|ws| - 1], id); }
  }

  // ----- sequences of job numbers -----

  function Occurs(s: seq<nat>, id: nat): nat {
    if s == [] then 0 else Occurs(s[..|s| - 1], id) + if s[|s| - 1] == id then 1 else 0
  }

  lemma OccursSnoc(s: seq<nat>, x: nat, id: nat)
    ensures Occurs(s + [x], id) == Occurs(s, id) + if x == id then 1 else 0
  {
    assert (s + [x])[..|s + [x]| - 1] == s;
  }

  function UpTo(n: nat): seq<nat> { seq(n, i => i) }

  lemma UpToNext(n: nat)
    ensures UpTo(n + 1) == UpTo(n) + [n]
  {}

  lemma {:induction false} OccursInUpTo(n: nat, id: nat)
    ensures Occurs(UpTo(n), id) == if id < n then 1 else 0
    decreases n
  {
    if n > 0 {
      var m: nat := n - 1;
      UpToNext(m);
      OccursInUpTo(m, id);
      OccursSnoc(UpTo(m), m, id);
    }
  }

  function JobsIn(queue: seq<Item>): seq<nat> {
    if queue == [] then []
    else (if queue[0].Job? then [queue[0].id] else []) + JobsIn(queue[1..])
  }

  lemma {:induction false} JobsInSnoc(queue: seq<Item>, item: Item)
    ensures JobsIn(queue + [item]) == JobsIn(queue) + (if item.Job? then [item.id] else [])
    decreases |queue|
  {
    var q := queue + [item];
    if queue == [] {
      assert q[1..] == [];
    } else {
      assert q[0] == queue[0] && q[1..] == queue[1..] + [item];
      JobsInSnoc(queue[1..], item);
    }
  }

  // ----- the invariant, seen from any one job -----

  ghost predicate Invariant(s: Pool, id: nat) {
    // accepted jobs were dequeued, or are still queued, in acceptance order
    && s.dequeued + JobsIn(s.queue) == UpTo(s.accepted)
    // a dequeued job is with one worker or finished
    && Occurs(s.dequeued, id) == Occurs(s.finished, id) + Sum(s.workers, Carrying(id))
    // the handler was called for finished jobs and the ones inside it
    && Occurs(s.handled, id) == Occurs(s.finished, id) + Sum(s.workers, Handling(id))
    && s.activeJobs == Sum(s.workers, Counting)
    // sentinels appear with the stop event only
    && (!s.stop ==> Sentinel !in s.queue && s.sentinelsToPut == 0)
  }

  lemma StartIsFine(workerCount: nat, queueSize: nat, id: nat)
    ensures Invariant(Start(workerCount, queueSize), id)
  {
    SumStart(workerCount, Carrying(id));
    SumStart(workerCount, Handling(id));
    SumStart(workerCount, Counting);
  }

  lemma QueueSteps(s: Pool, step: Step, id: nat)
    requires Invariant(s, id) && Enabled(s, step)
    requires step.CheckSubmit? || step.PutJob? || step.BeginShutdown? || step.SetStop? || step.PutSentinel?
    ensures Invariant(Apply(s, step), id)
  {
    hide Sum, Occurs, UpTo, JobsIn;
    JobsInSnoc(s.queue, Job(s.accepted));
    JobsInSnoc(s.queue, Sentinel);
    UpToNext(s.accepted);
    assert JobsIn(s.queue) + [] == JobsIn(s.queue);
    assert s.dequeued + (JobsIn(s.queue) + [s.accepted]) == s.dequeued + JobsIn(s.queue) + [s.accepted];
  }

  lemma GetStep(s: Pool, w: nat, id: nat)
    requires Invariant(s, id) && Enabled(s, Get(w))
    ensures Invariant(Apply(s, Get(w)), id)
  {
    hide Sum, Occurs, UpTo;
    var item, rest := s.queue[0], s.queue[1..];
    SumUpdate(s.workers, Carrying(id), w, Holding(item));
    SumUpdate(s.workers, Handling(id), w, Holding(item));
    SumUpdate(s.workers, Counting, w, Holding(item));
    assert Sentinel in rest ==> Sentinel in s.queue;
    if item.Job? {
      OccursSnoc(s.dequeued, item.id, id);
      assert s.dequeued + [item.id] + JobsIn(rest) == s.dequeued + ([item.id] + JobsIn(rest));
    } else {
      assert [] + JobsIn(rest) == JobsIn(rest);
    }
  }

  /** Steps of one worker that leave the queue alone. */
  lemma WorkerSteps(s: Pool, step: Step, id: nat)
    requires Invariant(s, id) && Enabled(s, step)
    requires step.TestStop? || step.GetTimeout? || step.TakeSentinel? || step.CountUp? || step.CallHandler?
             || step.Complete?
    ensures Invariant(Apply(s, step), id)
    ensures step.Complete? ==> s.activeJobs >= 1
  {
    hide Sum, Occurs, UpTo, JobsIn;
    var w, p := step.w, Apply(s, step).workers[step.w];
    SumUpdate(s.workers, Carrying(id), w, p);
    SumUpdate(s.workers, Handling(id), w, p);
    SumUpdate(s.workers, Counting, w, p);
    SumBounds(s.workers, Counting, w);
    if step.CallHandler? { OccursSnoc(s.handled, s.workers[w].id, id); }
    if step.Complete? { OccursSnoc(s.finished, s.workers[w].id, id); }
  }

  lemma StepKeepsInvariant(s: Pool, step: Step, id: nat)
    requires Invariant(s, id) && Enabled(s, step)
    ensures Invariant(Apply(s, step), id)
  {
    hide Invariant;
    match step
    case Get(w) => GetStep(s, w, id);
    case CheckSubmit => QueueSteps(s, step, id);
    case PutJob => QueueSteps(s, step, id);
    case BeginShutdown => QueueSteps(s, step, id);
    case SetStop => QueueSteps(s, step, id);
    case PutSentinel => QueueSteps(s, step, id);
    case _ => WorkerSteps(s, step, id);
  }

  /** Over every interleaving. */
  lemma {:induction false} RunKeepsInvariant(workerCount: nat, queueSize: nat, steps: seq<Step>, id: nat)
    ensures var s := Run(Start(workerCount, queueSize), steps);
            Invariant(s, id) && |s.workers| == workerCount
    decreases |steps|
  {
    hide Invariant;
    if steps == [] {
      StartIsFine(workerCount, queueSize, id);
    } else {
      RunKeepsInvariant(workerCount, queueSize, steps[..|steps| - 1], id);
      var before := Run(Start(workerCount, queueSize), steps[..|steps| - 1]);
      if Enabled(before, steps[|steps| - 1]) { StepKeepsInvariant(before, steps[|steps| - 1], id); }
    }
  }

  // ----- what every reachable state satisfies -----

  lemma PrefixOfUpTo(s: seq<nat>, rest: seq<nat>, n: nat)
    requires s + rest == UpTo(n)
    ensures s == UpTo(|s|) && |s| + |rest| == n
  {
    assert forall i :: 0 <= i < |s| ==> s[i] == (s + rest)[i] == i;
  }

  /** Accepted jobs are dequeued in acceptance order, and each dequeued job is with exactly one
      worker or finished exactly once. */
  lemma JobsArePartitioned(workerCount: nat, queueSize: nat, steps: seq<Step>, id: nat)
    ensures var s := Run(Start(workerCount, queueSize), steps);
            && s.dequeued == UpTo(|s.dequeued|) && |s.dequeued| + |JobsIn(s.queue)| == s.accepted
            && Occurs(s.finished, id) + Sum(s.workers, Carrying(id)) == if id < |s.dequeued| then 1 else 0
  {
    hide Run, Sum, JobsIn;
    RunKeepsInvariant(workerCount, queueSize, steps, id);
    var s := Run(Start(workerCount, queueSize), steps);
    PrefixOfUpTo(s.dequeued, JobsIn(s.queue), s.accepted);
    OccursInUpTo(|s.dequeued|, id);
  }

  /** The handler is called at most once for a job, only for a job that was dequeued, and a
      finished job had its call. */
  lemma HandledAtMostOnce(workerCount: nat, queueSize: nat, steps: seq<Step>, id: nat)
    ensures var s := Run(Start(workerCount, queueSize), steps);
            && Occurs(s.finished, id) <= Occurs(s.handled, id) <= 1
            && (Occurs(s.handled, id) > 0 ==> id < |s.dequeued|)
  {
    hide Run, Sum, Occurs;
    RunKeepsInvariant(workerCount, queueSize, steps, id);
    JobsArePartitioned(workerCount, queueSize, steps, id);
    HandlersCarry(Run(Start(workerCount, queueSize), steps).workers, id);
  }

  /** `_active_jobs` is exactly the number of workers that hold a counted job, so it is at most
      the number of workers, and the clamp at zero never binds. */
  lemma ActiveJobsIsExact(workerCount: nat, queueSize: nat, steps: seq<Step>, w: nat, raised: bool)
    ensures var s := Run(Start(workerCount, queueSize), steps);
            && s.activeJobs == Sum(s.workers, Counting) <= workerCount
            && (Enabled(s, Complete(w, raised)) ==> Apply(s, Complete(w, raised)).activeJobs == s.activeJobs - 1)
  {
    hide Run, Sum;
    RunKeepsInvariant(workerCount, queueSize, steps, 0);
    var s := Run(Start(workerCount, queueSize), steps);
    SumIsBounded(s.workers, Counting);
    if Enabled(s, Complete(w, raised)) { WorkerSteps(s, Complete(w, raised), 0); }
  }

  /** When the pool reports itself drained, an accepted job is finished if and only if no worker has
      it in hand without having counted it yet. */
  lemma DrainedJob(workerCount: nat, queueSize: nat, steps: seq<Step>, id: nat)
    requires Drained(Run(Start(workerCount, queueSize), steps))
    ensures var s := Run(Start(workerCount, queueSize), steps);
            && Occurs(s.finished, id) <= 1
            && (id < s.accepted ==>
                  (Occurs(s.finished, id) == 1
                   <==> forall w :: 0 <= w < |s.workers| ==> s.workers[w] != Holding(Job(id))))
            && (id >= s.accepted ==> forall w :: 0 <= w < |s.workers| ==> s.workers[w] != Holding(Job(id)))
  {
    hide Run, Sum, Occurs;
    RunKeepsInvariant(workerCount, queueSize, steps, id);
    JobsArePartitioned(workerCount, queueSize, steps, id);
    var s := Run(Start(workerCount, queueSize), steps);
    forall w | 0 <= w < |s.workers| && s.workers[w] == Holding(Job(id)) ensures Sum(s.workers, Carrying(id)) > 0 {
      SumBounds(s.workers, Carrying(id), w);
    }
    if Sum(s.workers, Carrying(id)) > 0 {
      SomeoneWeighs(s.workers, Carrying(id));
      var w :| 0 <= w < |s.workers| && WeightOf(Carrying(id), s.workers[w]) > 0;
      SumBounds(s.workers, Counting, w);
      assert s.workers[w] == Holding(Job(id));
    }
  }

  /** So a pool that reports itself drained has finished every accepted job, each once, if and only
      if no worker holds an uncounted job. */
  lemma DrainedMeans(workerCount: nat, queueSize: nat, steps: seq<Step>)
    requires Drained(Run(Start(workerCount, queueSize), steps))
    ensures var s := Run(Start(workerCount, queueSize), steps);
            (forall id: nat :: id < s.accepted ==> Occurs(s.finished, id) == 1)
            <==> forall w :: 0 <= w < |s.workers| ==> !(s.workers[w].Holding? && s.workers[w].item.Job?)
  {
    hide Run, Occurs;
    var s := Run(Start(workerCount, queueSize), steps);
    if forall w :: 0 <= w < |s.workers| ==> !(s.workers[w].Holding? && s.workers[w].item.Job?) {
      forall id: nat | id < s.accepted ensures Occurs(s.finished, id) == 1 {
        DrainedJob(workerCount, queueSize, steps, id);
      }
    } else {
      var w :| 0 <= w < |s.workers| && s.workers[w].Holding? && s.workers[w].item.Job?;
      var id := s.workers[w].item.id;
      DrainedJob(workerCount, queueSize, steps, id);
      assert s.workers[w] == Holding(Job(id));
      assert id < s.accepted && Occurs(s.finished, id) != 1;
    }
  }

  lemma RunOne(s: Pool, steps: seq<Step>, step: Step)
    ensures var before := Run(s, steps);
            Run(s, steps + [step]) == if Enabled(before, step) then Apply(before, step) else before
  {
    hide Enabled, Apply;
    assert (steps + [step])[..|steps + [step]| - 1] == steps;
  }

  /** That window is real: a pool can report itself drained with an accepted job not started. */
  lemma DrainedTooEarly()
    ensures exists steps :: var s := Run(Start(1, 1), steps);
              Drained(s) && s.accepted == 1 && s.finished == [] && s.handled == []
  {
    hide Run;
    var s0 := Start(1, 1);
    assert Run(s0, []) == s0 by { RunNone(s0); }
    RunOne(s0, [], CheckSubmit);
    var a: seq<Step> := [] + [CheckSubmit];
    RunOne(s0, a, PutJob);
    var b := a + [PutJob];
    RunOne(s0, b, TestStop(0));
    var c := b + [TestStop(0)];
    RunOne(s0, c, Get(0));
    assert Drained(Run(s0, c + [Get(0)]));
  }

  lemma RunNone(s: Pool)
    ensures Run(s, []) == s
  {}

  /** No sentinel is queued before the stop event is set, so none reaches a worker. */
  lemma SentinelsFollowStop(workerCount: nat, queueSize: nat, steps: seq<Step>)
    ensures var s := Run(Start(workerCount, queueSize), steps);
            !s.stop ==> Sentinel !in s.queue
  {
    RunKeepsInvariant(workerCount, queueSize, steps, 0);
  }

  // ----- the queue and its sentinels -----

  function SentinelsIn(queue: seq<Item>): nat {
    if queue == [] then 0 else (if queue[0].Sentinel? then 1 else 0) + SentinelsIn(queue[1..])
  }

  lemma {:induction false} SentinelsInSnoc(queue: seq<Item>, item: Item)
    ensures SentinelsIn(queue + [item]) == SentinelsIn(queue) + if item.Sentinel? then 1 else 0
    decreases |queue|
  {
    var q := queue + [item];
    if queue == [] {
      assert q[1..] == [];
    } else {
      assert q[0] == queue[0] && q[1..] == queue[1..] + [item];
      SentinelsInSnoc(queue[1..], item);
    }
  }

  ghost predicate Bounded(s: Pool) {
    && |s.queue| <= s.capacity
    && s.sentinelsToPut + SentinelsIn(s.queue) + Sum(s.workers, Stopping) <= |s.workers|
    && (if s.stop then Sum(s.workers, Waiting) <= s.sentinelsToPut + SentinelsIn(s.queue)
        else s.sentinelsToPut + SentinelsIn(s.queue) + Sum(s.workers, Stopping) == 0)
  }

  lemma StepKeepsBounds(s: Pool, step: Step)
    requires Bounded(s) && Enabled(s, step)
    ensures Bounded(Apply(s, step))
  {
    hide Sum, SentinelsIn;
    SentinelsInSnoc(s.queue, Job(s.accepted));
    SentinelsInSnoc(s.queue, Sentinel);
    SumIsBounded(s.workers, Waiting);
    if step.Get? { FirstSentinel(s.queue); }
    if step.TestStop? || step.Get? || step.GetTimeout? || step.TakeSentinel? || step.CountUp? || step.CallHandler?
       || step.Complete? {
      var p := Apply(s, step).workers[step.w];
      SumUpdate(s.workers, Stopping, step.w, p);
      SumUpdate(s.workers, Waiting, step.w, p);
    }
  }

  lemma FirstSentinel(queue: seq<Item>)
    requires queue != []
    ensures SentinelsIn(queue) == (if queue[0].Sentinel? then 1 else 0) + SentinelsIn(queue[1..])
  {}

  lemma {:induction false} RunIsBounded(workerCount: nat, queueSize: nat, steps: seq<Step>)
    ensures var s := Run(Start(workerCount, queueSize), steps);
            Bounded(s) && s.capacity == queueSize && |s.workers| == workerCount
    decreases |steps|
  {
    hide Bounded, Sum;
    if steps == [] {
      StartIsBounded(workerCount, queueSize);
    } else {
      var front, last := steps[..|steps| - 1], steps[|steps| - 1];
      RunIsBounded(workerCount, queueSize, front);
      var before := Run(Start(workerCount, queueSize), front);
      if Enabled(before, last) { StepKeepsBounds(before, last); }
    }
  }

  lemma StartIsBounded(workerCount: nat, queueSize: nat)
    ensures Bounded(Start(workerCount, queueSize))
  {
    SumStart(workerCount, Stopping);
    SumStart(workerCount, Waiting);
  }

  /** The queue never holds more than its size. The sentinels to come, queued or taken are never more
      than the workers; and once the stop event is set there is one for every worker that waits at
      the queue, so none waits for ever. */
  lemma SentinelsSuffice(workerCount: nat, queueSize: nat, steps: seq<Step>)
    ensures var s := Run(Start(workerCount, queueSize), steps);
            && |s.queue| <= queueSize
            && s.sentinelsToPut + SentinelsIn(s.queue) + Sum(s.workers, Stopping) <= workerCount
            && (s.stop ==> Sum(s.workers, Waiting) <= s.sentinelsToPut + SentinelsIn(s.queue))
  {
    hide Run, Sum, SentinelsIn;
    RunIsBounded(workerCount, queueSize, steps);
  }

  // ----- after the stop event -----

  /** From any state in which the stop event is set: it stays set, at most the submitters that had
      already passed the check get a job in, and each waiting worker takes at most one more item. */
  lemma {:induction false} AfterStop(s: Pool, steps: seq<Step>)
    requires s.stop
    ensures var t := Run(s, steps);
            && t.stop
            && t.accepted + t.submitting <= s.accepted + s.submitting
            && |t.dequeued| + Sum(t.workers, Waiting) <= |s.dequeued| + Sum(s.workers, Waiting)
    decreases |steps|
  {
    hide Sum;
    if steps != [] {
      var front, last := steps[..|steps| - 1], steps[|steps| - 1];
      AfterStop(s, front);
      var t := Run(s, front);
      if Enabled(t, last) { StepAfterStop(t, last); }
    }
  }

  lemma StepAfterStop(s: Pool, step: Step)
    requires s.stop && Enabled(s, step)
    ensures var t := Apply(s, step);
            && t.stop && t.accepted + t.submitting <= s.accepted + s.submitting
            && |t.dequeued| + Sum(t.workers, Waiting) <= |s.dequeued| + Sum(s.workers, Waiting)
  {
    hide Sum;
    if step.TestStop? || step.Get? || step.GetTimeout? || step.TakeSentinel? || step.CountUp? || step.CallHandler?
       || step.Complete? {
      SumUpdate(s.workers, Waiting, step.w, Apply(s, step).workers[step.w]);
    }
  }

  // ----- how workers leave -----

  /** Handler calls that raised. */
  predicate RaisesIn(s: Pool, step: Step) { Enabled(s, step) && step.Complete? && step.raised }

  /** The ways out of the loop: the handler raised, a sentinel, or the stop event. */
  predicate LeavesIn(s: Pool, step: Step) {
    RaisesIn(s, step) || (Enabled(s, step) && (step.TakeSentinel? || (step.TestStop? && s.stop)))
  }

  function CountSteps(s: Pool, steps: seq<Step>, counted: (Pool, Step) -> bool): nat
    decreases |steps|
  {
    if steps == [] then 0
    else
      var front, last := steps[..|steps| - 1], steps[|steps| - 1];
      CountSteps(s, front, counted) + if counted(Run(s, front), last) then 1 else 0
  }

  /** A worker leaves by a handler that raises, by a sentinel or by the stop event, and each of these
      costs the pool a worker: none comes back, and none is replaced. Until the stop event it is only
      the handlers that raise. */
  lemma {:induction false} HowWorkersLeave(workerCount: nat, queueSize: nat, steps: seq<Step>)
    ensures var start := Start(workerCount, queueSize);
            var s := Run(start, steps);
            && Sum(s.workers, Gone) == CountSteps(start, steps, (s, step) => LeavesIn(s, step)) <= workerCount
            && (!s.stop ==> Sum(s.workers, Gone) == CountSteps(start, steps, (s, step) => RaisesIn(s, step)))
    decreases |steps|
  {
    hide Sum, Bounded;
    var start := Start(workerCount, queueSize);
    RunIsBounded(workerCount, queueSize, steps);
    SumIsBounded(Run(start, steps).workers, Gone);
    if steps == [] {
      SumStart(workerCount, Gone);
    } else {
      var front, last := steps[..|steps| - 1], steps[|steps| - 1];
      HowWorkersLeave(workerCount, queueSize, front);
      RunIsBounded(workerCount, queueSize, front);
      if Enabled(Run(start, front), last) { StepLosesWorkers(Run(start, front), last); }
    }
  }

  lemma StepLosesWorkers(s: Pool, step: Step)
    requires Bounded(s) && Enabled(s, step)
    ensures var t := Apply(s, step);
            && Sum(t.workers, Gone) == Sum(s.workers, Gone) + (if LeavesIn(s, step) then 1 else 0)
            && (!t.stop ==> !s.stop && (LeavesIn(s, step) <==> RaisesIn(s, step)))
  {
    hide Sum, SentinelsIn;
    if step.TestStop? || step.Get? || step.GetTimeout? || step.TakeSentinel? || step.CountUp? || step.CallHandler?
       || step.Complete? {
      SumUpdate(s.workers, Gone, step.w, Apply(s, step).workers[step.w]);
      SumBounds(s.workers, Stopping, step.w);
    }
  }
}

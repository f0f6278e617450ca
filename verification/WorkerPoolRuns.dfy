/** What holds of whole runs of the worker pool: it finishes, it loses and invents no job, its
    summary depends on the jobs alone, and an interrupt stops it from starting more jobs. */
module WorkerPoolRuns {
  import opened WorkerPool

  ghost predicate IsReachable(s: State, suite: seq<Task>, processors: nat) {
    exists steps :: IsRun(Init(suite, processors), steps) && After(Init(suite, processors), steps) == s
  }

  lemma ReachableInv(s: State, suite: seq<Task>, processors: nat)
    requires IsReachable(s, suite, processors)
    ensures Inv(s) && s.suite == suite && |s.workers| == processors
  {
    var steps :| IsRun(Init(suite, processors), steps) && After(Init(suite, processors), steps) == s;
    InitInv(suite, processors);
    RunKeepsInv(Init(suite, processors), steps);
  }

  // ---- Conservation and the order of the sentinels ----

  /** In every reachable state each job object created so far is in exactly one place, and a worker
      has returned only if no real job is left for the others. */
  lemma JobsAreConserved(s: State, suite: seq<Task>, processors: nat, k: nat)
    requires IsReachable(s, suite, processors)
    ensures CountJob(s.input, k) + Total(s.workers, HasJob(k)) + CountJob(s.output, k) + CountJob(s.collected, k)
      == if k < s.enqueued then 1 else 0
    ensures (exists w :: 0 <= w < |s.workers| && s.workers[w].Exited?)
      ==> s.enqueued >= |suite| && forall i :: 0 <= i < |s.input| ==> s.input[i].isBreak
  {
    ReachableInv(s, suite, processors);
    assert Places(s, k) == if k < s.enqueued then 1 else 0;
    if w :| 0 <= w < |s.workers| && s.workers[w].Exited? {
      assert WorkerOk(s, s.workers[w]);
    }
  }

  /** Each job is started at most once, and exactly when it is running or was handed back as run. */
  lemma StartedOnce(s: State, suite: seq<Task>, processors: nat, k: nat)
    requires IsReachable(s, suite, processors)
    ensures multiset(s.launches)[k] == Total(s.workers, HasStarted(k)) + CountRun(s.output, k) + CountRun(s.collected, k)
    ensures multiset(s.launches)[k] <= 1
  {
    ReachableInv(s, suite, processors);
    assert Places(s, k) == if k < s.enqueued then 1 else 0;
    assert multiset(s.launches)[k] == Starts(s, k);
    StartedIsHeld(s.workers, k);
    RunIsCounted(s.output, k);
    RunIsCounted(s.collected, k);
  }

  lemma StartedIsHeld(workers: seq<Worker>, k: nat)
    ensures Total(workers, HasStarted(k)) <= Total(workers, HasJob(k))
  {
  }

  lemma RunIsCounted(jobs: seq<Job>, k: nat)
    ensures CountRun(jobs, k) <= CountJob(jobs, k)
  {
  }

  // ---- Progress ----

  /** When everything is dispatched and no worker can step, the workers have taken it all. */
  lemma WorkersExhausted(s: State)
    requires Inv(s) && !Dispatching(s)
    requires forall w :: 0 <= w < |s.workers| ==> !WorkerCanStep(s, w)
    ensures s.input != [] ==> |s.workers| == 0
    ensures s.input == [] ==> |s.output| + |s.collected| == |s.suite|
    ensures s.input == [] ==> forall w :: 0 <= w < |s.workers| ==> s.workers[w].Exited?
  {
    forall w | 0 <= w < |s.workers|
      ensures s.workers[w].Exited? || (s.workers[w].Idle? && s.input == [])
    {
      assert !WorkerCanStep(s, w);
    }
    TotalBounds(s.workers, RealWeight);
    TotalBounds(s.workers, SentinelWeight);
    if s.input == [] {
      forall w | 0 <= w < |s.workers| ensures s.workers[w].Exited? {
        assert SentinelWeight(s.workers[w]) == 1;
      }
    }
  }

  /** With at least one worker, or with nothing to do, the pool is never stuck: until the run is over,
      the main thread or some worker can take a step. */
  lemma Progress(s: State)
    requires Inv(s) && !Done(s) && (|s.workers| > 0 || s.suite == [])
    ensures MainCanStep(s) || exists w :: 0 <= w < |s.workers| && WorkerCanStep(s, w)
  {
    if !MainCanStep(s) && forall w :: 0 <= w < |s.workers| ==> !WorkerCanStep(s, w) {
      WorkersExhausted(s);
      assert false;
    }
  }

  /** Neither the main thread nor a worker can take a step. */
  ghost predicate Stuck(s: State) {
    !MainCanStep(s) && forall w :: 0 <= w < |s.workers| ==> !WorkerCanStep(s, w)
  }

  /** The state reached when k jobs have been dispatched and nobody takes them. */
  lemma {:induction false} DispatchWithoutWorkers(suite: seq<Task>, k: nat) returns (steps: seq<Step>)
    requires k <= |suite|
    ensures IsRun(Init(suite, 0), steps)
    ensures var s := After(Init(suite, 0), steps);
      s == Init(suite, 0).(input := s.input, enqueued := k)
  {
    if k == 0 {
      steps := [];
    } else {
      var before := DispatchWithoutWorkers(suite, k - 1);
      steps := before + [MainThread];
      RunAppend(Init(suite, 0), before, MainThread);
    }
  }

  lemma RunAppend(s: State, steps: seq<Step>, step: Step)
    requires IsRun(s, steps) && Enabled(After(s, steps), step)
    ensures IsRun(s, steps + [step])
    ensures After(s, steps + [step]) == Apply(After(s, steps), step)
    decreases |steps|
  {
    if steps == [] {
      assert steps + [step] == [step] && [step][1..] == [];
    } else {
      assert (steps + [step])[1..] == steps[1..] + [step];
      RunAppend(Apply(s, steps[0]), steps[1..], step);
    }
  }

  /** Every run that can go no further is over, if and only if there is a worker or nothing to do. */
  lemma FinishesIffWorkers(suite: seq<Task>, processors: nat)
    ensures (forall s :: IsReachable(s, suite, processors) && Stuck(s) ==> Done(s))
      <==> processors > 0 || suite == []
  {
    if processors > 0 || suite == [] {
      forall s | IsReachable(s, suite, processors) && Stuck(s) ensures Done(s) {
        ReachableInv(s, suite, processors);
        if !Done(s) {
          Progress(s);
        }
      }
    } else {
      var steps := DispatchWithoutWorkers(suite, |suite|);
      var s := After(Init(suite, 0), steps);
      assert IsReachable(s, suite, 0) && Stuck(s) && !Done(s);
    }
  }

  // ---- The measure ----

  function WorkerWeight(x: Worker): nat {
    match x
    case Idle => 0
    case Holding(job) => if job.isBreak then 1 else 5
    case Cleared(_) => 4
    case Running(_) => 3
    case Reporting(_) => 2
    case Exited(_) => 0
  }

  function QueueWeight(jobs: seq<Job>): nat {
    if jobs == [] then 0 else (if jobs[0].isBreak then 2 else 6) + QueueWeight(jobs[1..])
  }

  lemma QueueWeightAppend(jobs: seq<Job>, job: Job)
    ensures QueueWeight(jobs + [job]) == QueueWeight(jobs) + if job.isBreak then 2 else 6
  {
    if jobs == [] {
      assert jobs + [job] == [job] && [job][1..] == [];
    } else {
      assert (jobs + [job])[1..] == jobs[1..] + [job];
      QueueWeightAppend(jobs[1..], job);
    }
  }

  function NotEnqueued(s: State): nat
    requires s.enqueued <= |s.suite| + |s.workers|
  {
    if s.enqueued < |s.suite| then 7 * (|s.suite| - s.enqueued) + 3 * |s.workers|
    else 3 * (|s.suite| + |s.workers| - s.enqueued)
  }

  /** A bound on the steps of the main thread and of the workers that are still to come. */
  ghost function StepsLeft(s: State): nat
    requires s.enqueued <= |s.suite| + |s.workers| && s.joined <= |s.workers|
  {
    NotEnqueued(s) + QueueWeight(s.input) + Total(s.workers, WorkerWeight) + |s.output| + (|s.workers| - s.joined)
  }

  lemma MainStepsFall(s: State)
    requires Sizes(s) && MainCanStep(s) && Sizes(MainStep(s))
    ensures StepsLeft(MainStep(s)) < StepsLeft(s)
  {
    if Dispatching(s) {
      QueueWeightAppend(s.input, FreshJob(s.suite, s.enqueued));
    }
  }

  lemma WorkerStepsFall(s: State, w: nat)
    requires Shape(s) && WorkerCanStep(s, w) && Sizes(WorkerStep(s, w))
    ensures StepsLeft(WorkerStep(s, w)) < StepsLeft(s)
  {
    TotalUpdate(s.workers, w, WorkerStep(s, w).workers[w], WorkerWeight);
    assert WorkerOk(s, s.workers[w]);
  }

  lemma StepsLeftFalls(s: State, step: Step)
    requires Inv(s) && Enabled(s, step)
    ensures Inv(Apply(s, step))
    ensures step.Sigint? ==> StepsLeft(Apply(s, step)) == StepsLeft(s)
    ensures !step.Sigint? ==> StepsLeft(Apply(s, step)) < StepsLeft(s)
  {
    StepKeepsInv(s, step);
    match step
    case MainThread => MainStepsFall(s);
    case Work(w) => WorkerStepsFall(s, w);
    case Sigint =>
  }

  /** How many of the steps are taken by the main thread or a worker. */
  function ThreadSteps(steps: seq<Step>): nat {
    if steps == [] then 0 else (if steps[0].Sigint? then 0 else 1) + ThreadSteps(steps[1..])
  }

  lemma {:induction false} RunIsBounded(s: State, steps: seq<Step>)
    requires Inv(s) && IsRun(s, steps)
    ensures Inv(After(s, steps)) && ThreadSteps(steps) + StepsLeft(After(s, steps)) <= StepsLeft(s)
    decreases |steps|
  {
    if steps == [] {
    } else {
      StepsLeftFalls(s, steps[0]);
      RunIsBounded(Apply(s, steps[0]), steps[1..]);
    }
  }

  /** No run takes more than seven steps for each job and four for each worker, however the threads
      are scheduled and however often SIGINT arrives. */
  lemma RunsAreShort(suite: seq<Task>, processors: nat, steps: seq<Step>)
    requires IsRun(Init(suite, processors), steps)
    ensures ThreadSteps(steps) <= 7 * |suite| + 4 * processors
  {
    InitInv(suite, processors);
    RunIsBounded(Init(suite, processors), steps);
    AllIdleWeigh(Init(suite, processors).workers);
  }

  lemma AllIdleWeigh(workers: seq<Worker>)
    requires forall w :: 0 <= w < |workers| ==> workers[w].Idle?
    ensures Total(workers, WorkerWeight) == 0
  {
    if workers == [] {
    } else {
      assert forall w :: 0 <= w < |workers[1..]| ==> workers[1..][w] == workers[w + 1];
      AllIdleWeigh(workers[1..]);
    }
  }

  // ---- The interrupt ----

  ghost predicate IsCleared(s: State, k: nat) {
    exists w :: 0 <= w < |s.workers| && s.workers[w] == Cleared(FreshJob(s.suite, k))
  }

  /** Once the flag is set, the only jobs still to be started are those whose worker had already
      looked at the flag; there is at most one for each worker. */
  lemma {:induction false} NoStartAfterInterrupt(s: State, steps: seq<Step>)
    requires Inv(s) && s.threadExit && IsRun(s, steps)
    ensures var t := After(s, steps);
      && |s.launches| <= |t.launches| && t.launches[..|s.launches|] == s.launches
      && (forall i :: |s.launches| <= i < |t.launches| ==> IsCleared(s, t.launches[i]))
      && (forall k :: IsCleared(t, k) ==> IsCleared(s, k))
      && |t.launches| + Total(t.workers, ClearedWeight) <= |s.launches| + Total(s.workers, ClearedWeight)
      && Total(s.workers, ClearedWeight) <= |s.workers|
    decreases |steps|
  {
    TotalBounds(s.workers, ClearedWeight);
    if steps == [] {
    } else {
      var mid := Apply(s, steps[0]);
      StepKeepsInv(s, steps[0]);
      StepAfterInterrupt(s, steps[0]);
      NoStartAfterInterrupt(mid, steps[1..]);
      var t := After(mid, steps[1..]);
      forall i | |s.launches| <= i < |t.launches| ensures IsCleared(s, t.launches[i]) {
        if i < |mid.launches| {
          assert t.launches[i] == t.launches[..|mid.launches|][i] == mid.launches[i];
        }
      }
      assert t.launches[..|s.launches|] == t.launches[..|mid.launches|][..|s.launches|];
    }
  }

  lemma StepAfterInterrupt(s: State, step: Step)
    requires Inv(s) && s.threadExit && Enabled(s, step)
    ensures var t := Apply(s, step);
      && t.threadExit && |t.workers| == |s.workers|
      && (t.launches == s.launches || exists k :: t.launches == s.launches + [k] && IsCleared(s, k))
      && (forall k :: IsCleared(t, k) ==> IsCleared(s, k))
      && |t.launches| + Total(t.workers, ClearedWeight) <= |s.launches| + Total(s.workers, ClearedWeight)
  {
    var t := Apply(s, step);
    if step.Work? {
      var w := step.w;
      assert WorkerOk(s, s.workers[w]);
      TotalUpdate(s.workers, w, t.workers[w], ClearedWeight);
      if s.workers[w].Cleared? {
        var k := s.workers[w].job.number;
        assert s.workers[w] == Cleared(FreshJob(s.suite, k));
        assert t.launches == s.launches + [k] && IsCleared(s, k);
      }
    }
    forall k | IsCleared(t, k) ensures IsCleared(s, k) {
      var v :| 0 <= v < |t.workers| && t.workers[v] == Cleared(FreshJob(t.suite, k));
      assert s.workers[v] == Cleared(FreshJob(s.suite, k));
    }
  }
}

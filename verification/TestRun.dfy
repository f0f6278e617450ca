/** The main program of test.py: the tally of the collected jobs, the exit status, and the whole run
    with its threads scheduled in any way. */
module TestRun {
  import opened WorkerPool
  import opened WorkerPoolRuns
  import opened Options

  datatype Status = Interrupted | Skip | Pass | Fail | Valgr | Crash

  /** How the collection loop classifies a job. */
  function StatusOf(job: Job): Status {
    if job.isBreak then Interrupted
    else if job.isSkip then Skip
    else if job.returncode == 0 then Pass
    else if job.returncode == 1 then Fail
    else if job.returncode == 2 then Valgr
    else Crash
  }

  function CountStatus(jobs: seq<Job>, status: Status): nat {
    if jobs == [] then 0 else (if StatusOf(jobs[0]) == status then 1 else 0) + CountStatus(jobs[1..], status)
  }

  lemma CountStatusAppend(jobs: seq<Job>, job: Job, status: Status)
    ensures CountStatus(jobs + [job], status) == CountStatus(jobs, status) + if StatusOf(job) == status then 1 else 0
  {
    if jobs == [] {
      assert jobs + [job] == [job] && [job][1..] == [];
    } else {
      assert (jobs + [job])[1..] == jobs[1..] + [job];
      CountStatusAppend(jobs[1..], job, status);
    }
  }

  lemma {:induction false} StatusesCoverAll(jobs: seq<Job>)
    ensures CountStatus(jobs, Interrupted) + CountStatus(jobs, Skip) + CountStatus(jobs, Pass)
      + CountStatus(jobs, Fail) + CountStatus(jobs, Valgr) + CountStatus(jobs, Crash) == |jobs|
    ensures CountStatus(jobs, Pass) + CountStatus(jobs, Skip) == |jobs|
      <==> forall i :: 0 <= i < |jobs| ==> StatusOf(jobs[i]) in {Pass, Skip}
    ensures CountStatus(jobs, Interrupted) == 0 <==> forall i :: 0 <= i < |jobs| ==> !jobs[i].isBreak
  {
    if jobs == [] {
    } else {
      StatusesCoverAll(jobs[1..]);
      assert forall i :: 0 < i < |jobs| ==> jobs[i] == jobs[1..][i - 1];
      assert forall i :: 0 <= i < |jobs[1..]| ==> jobs[1..][i] == jobs[i + 1];
    }
  }

  // ---- The lists that the collection loop fills ----

  /** The jobs of a status, in the order in which they were collected; a job's number stands for its
      name. */
  function NamesOf(jobs: seq<Job>, status: Status): seq<nat> {
    if jobs == [] then []
    else
      var last := jobs[|jobs| - 1];
      if StatusOf(last) == status then NamesOf(jobs[..|jobs| - 1], status) + [last.number]
      else NamesOf(jobs[..|jobs| - 1], status)
  }

  predicate IsFailure(job: Job) {
    StatusOf(job) in {Fail, Valgr, Crash}
  }

  /** The jobs that were run and did not pass. */
  function FailuresOf(jobs: seq<Job>): seq<Job> {
    if jobs == [] then []
    else
      var last := jobs[|jobs| - 1];
      if IsFailure(last) then FailuresOf(jobs[..|jobs| - 1]) + [last] else FailuresOf(jobs[..|jobs| - 1])
  }

  lemma NamesAppend(jobs: seq<Job>, job: Job, status: Status)
    ensures NamesOf(jobs + [job], status)
      == if StatusOf(job) == status then NamesOf(jobs, status) + [job.number] else NamesOf(jobs, status)
  {
    assert (jobs + [job])[..|jobs|] == jobs;
  }

  lemma FailuresAppend(jobs: seq<Job>, job: Job)
    ensures FailuresOf(jobs + [job]) == if IsFailure(job) then FailuresOf(jobs) + [job] else FailuresOf(jobs)
  {
    assert (jobs + [job])[..|jobs|] == jobs;
  }

  /** The counters and lists that the main thread keeps. */
  datatype Tally = Tally(
    passedTests: nat, failedTests: nat, valgrindErrors: nat, crashedTests: nat, skippedTests: nat,
    failedTestnames: seq<nat>, valgrindTestnames: seq<nat>, crashedTestnames: seq<nat>, skippedTestnames: seq<nat>,
    failedJobs: seq<Job>)

  function TallyBy(count: Status -> nat, names: Status -> seq<nat>, failures: seq<Job>): Tally {
    Tally(
      count(Pass), count(Fail), count(Valgr), count(Crash), count(Skip),
      names(Fail), names(Valgr), names(Crash), names(Skip),
      failures)
  }

  function CountBy(jobs: seq<Job>): Status -> nat {
    (status: Status) => CountStatus(jobs, status)
  }

  function NamesBy(jobs: seq<Job>): Status -> seq<nat> {
    (status: Status) => NamesOf(jobs, status)
  }

  function TallyOf(jobs: seq<Job>): Tally {
    TallyBy(CountBy(jobs), NamesBy(jobs), FailuresOf(jobs))
  }

  /** What one more job adds. */
  function Added(t: Tally, job: Job): Tally {
    match StatusOf(job)
    case Interrupted => t
    case Skip => t.(skippedTests := t.skippedTests + 1, skippedTestnames := t.skippedTestnames + [job.number])
    case Pass => t.(passedTests := t.passedTests + 1)
    case Fail =>
      t.(failedTests := t.failedTests + 1, failedTestnames := t.failedTestnames + [job.number],
         failedJobs := t.failedJobs + [job])
    case Valgr =>
      t.(valgrindErrors := t.valgrindErrors + 1, valgrindTestnames := t.valgrindTestnames + [job.number],
         failedJobs := t.failedJobs + [job])
    case Crash =>
      t.(crashedTests := t.crashedTests + 1, crashedTestnames := t.crashedTestnames + [job.number],
         failedJobs := t.failedJobs + [job])
  }

  lemma TallyByAdded(count: Status -> nat, names: Status -> seq<nat>, failures: seq<Job>, job: Job,
                     count': Status -> nat, names': Status -> seq<nat>, failures': seq<Job>)
    requires forall status :: count'(status) == count(status) + if StatusOf(job) == status then 1 else 0
    requires forall status :: names'(status) == if StatusOf(job) == status then names(status) + [job.number] else names(status)
    requires failures' == if IsFailure(job) then failures + [job] else failures
    ensures TallyBy(count', names', failures') == Added(TallyBy(count, names, failures), job)
  {
  }

  lemma TallyAppend(jobs: seq<Job>, job: Job)
    ensures TallyOf(jobs + [job]) == Added(TallyOf(jobs), job)
  {
    var count, names := CountBy(jobs), NamesBy(jobs);
    var count', names' := CountBy(jobs + [job]), NamesBy(jobs + [job]);
    forall status
      ensures count'(status) == count(status) + if StatusOf(job) == status then 1 else 0
      ensures names'(status) == if StatusOf(job) == status then names(status) + [job.number] else names(status)
    {
      CountStatusAppend(jobs, job, status);
      NamesAppend(jobs, job, status);
    }
    FailuresAppend(jobs, job);
    TallyByAdded(count, names, FailuresOf(jobs), job, count', names', FailuresOf(jobs + [job]));
  }

  /** The names of a status are as many as its count. */
  lemma {:induction false} NamesAreCounted(jobs: seq<Job>, status: Status)
    ensures |NamesOf(jobs, status)| == CountStatus(jobs, status)
  {
    if jobs == [] {
    } else {
      var front, last := jobs[..|jobs| - 1], jobs[|jobs| - 1];
      NamesAreCounted(front, status);
      CountStatusAppend(front, last, status);
      assert jobs == front + [last];
    }
  }

  // ---- What the pool hands over at the end ----

  /** When the run is over both queues are empty and all workers have returned. */
  lemma DoneIsClean(s: State)
    requires Inv(s) && Done(s)
    ensures s.input == [] && s.output == [] && |s.collected| == |s.suite|
    ensures forall w :: 0 <= w < |s.workers| ==> s.workers[w].Exited?
  {
    TotalBounds(s.workers, RealWeight);
    TotalBounds(s.workers, SentinelWeight);
  }

  /** Then each job has been collected exactly once. */
  lemma DoneCounts(s: State, k: nat)
    requires Inv(s) && Done(s)
    ensures CountJob(s.collected, k) == if k < |s.suite| then 1 else 0
  {
    DoneIsClean(s);
    assert Places(s, k) == if k < s.enqueued then 1 else 0;
    if k < |s.suite| {
      assert forall w :: 0 <= w < |s.workers| ==> WorkerOk(s, s.workers[w]);
      NobodyHas(s.workers, k);
    } else {
      NotAmong(s.collected, k);
    }
  }

  lemma NobodyHas(workers: seq<Worker>, k: nat)
    requires forall w :: 0 <= w < |workers| ==> workers[w].Exited? && workers[w].job.number != k
    ensures Total(workers, HasJob(k)) == 0
  {
    if workers == [] {
    } else {
      assert forall w :: 0 <= w < |workers[1..]| ==> workers[1..][w] == workers[w + 1];
      NobodyHas(workers[1..], k);
    }
  }

  lemma NotAmong(jobs: seq<Job>, k: nat)
    requires forall i :: 0 <= i < |jobs| ==> jobs[i].number != k
    ensures CountJob(jobs, k) == 0
  {
    if jobs == [] {
    } else {
      assert forall i :: 0 <= i < |jobs[1..]| ==> jobs[1..][i] == jobs[i + 1];
      NotAmong(jobs[1..], k);
    }
  }

  // ---- The tally depends on the jobs alone ----

  /** How many tasks would end in a status if each were skipped or run as it asks. */
  function CountTasks(suite: seq<Task>, status: Status): nat {
    if suite == [] then 0
    else
      var last := if StatusOf(ExpectedJob(suite, |suite| - 1)) == status then 1 else 0;
      CountTasks(suite[..|suite| - 1], status) + last
  }

  ghost function Weighted(suite: seq<Task>, n: nat, jobs: seq<Job>, status: Status): nat
    requires n <= |suite|
  {
    if n == 0 then 0
    else
      var last := if StatusOf(ExpectedJob(suite, n - 1)) == status then CountJob(jobs, n - 1) else 0;
      Weighted(suite, n - 1, jobs, status) + last
  }

  lemma {:induction false} WeightedStep(suite: seq<Task>, n: nat, jobs: seq<Job>, status: Status)
    requires n <= |suite| && jobs != []
    ensures Weighted(suite, n, jobs, status) == Weighted(suite, n, jobs[1..], status)
      + if jobs[0].number < n && StatusOf(ExpectedJob(suite, jobs[0].number)) == status then 1 else 0
  {
    if n == 0 {
    } else {
      WeightedStep(suite, n - 1, jobs, status);
    }
  }

  lemma WeightedEmpty(suite: seq<Task>, n: nat, status: Status)
    requires n <= |suite|
    ensures Weighted(suite, n, [], status) == 0
  {
  }

  lemma {:induction false} CountIsWeighted(suite: seq<Task>, jobs: seq<Job>, status: Status)
    requires forall i :: 0 <= i < |jobs| ==> jobs[i].number < |suite| && jobs[i] == ExpectedJob(suite, jobs[i].number)
    ensures CountStatus(jobs, status) == Weighted(suite, |suite|, jobs, status)
  {
    if jobs == [] {
      WeightedEmpty(suite, |suite|, status);
    } else {
      assert forall i :: 0 <= i < |jobs[1..]| ==> jobs[1..][i] == jobs[i + 1];
      CountIsWeighted(suite, jobs[1..], status);
      WeightedStep(suite, |suite|, jobs, status);
    }
  }

  lemma {:induction false} WeightedOnce(suite: seq<Task>, n: nat, jobs: seq<Job>, status: Status)
    requires n <= |suite| && forall k: nat :: k < n ==> CountJob(jobs, k) == 1
    ensures Weighted(suite, n, jobs, status) == CountTasks(suite[..n], status)
  {
    if n == 0 {
    } else {
      WeightedOnce(suite, n - 1, jobs, status);
      assert suite[..n][..n - 1] == suite[..n - 1];
    }
  }

  /** If no job was handed back as a break, the tally is that of the suite. */
  lemma TallyWithoutBreaks(s: State, status: Status)
    requires Inv(s) && Done(s) && forall i :: 0 <= i < |s.collected| ==> !s.collected[i].isBreak
    ensures CountStatus(s.collected, status) == CountTasks(s.suite, status)
  {
    forall i | 0 <= i < |s.collected|
      ensures s.collected[i].number < |s.suite| && s.collected[i] == ExpectedJob(s.suite, s.collected[i].number)
    {
      assert ReportOk(s, s.collected[i]);
    }
    CountIsWeighted(s.suite, s.collected, status);
    WeightedIsOfSuite(s, status);
  }

  lemma WeightedIsOfSuite(s: State, status: Status)
    requires Inv(s) && Done(s)
    ensures Weighted(s.suite, |s.suite|, s.collected, status) == CountTasks(s.suite, status)
  {
    forall k: nat | k < |s.suite| ensures CountJob(s.collected, k) == 1 {
      DoneCounts(s, k);
    }
    WeightedOnce(s.suite, |s.suite|, s.collected, status);
    assert s.suite[..|s.suite|] == s.suite;
  }

  /** If SIGINT never arrived, the tally is that of the suite, whatever the schedule was. */
  lemma TallyIsOfSuite(s: State, status: Status)
    requires Inv(s) && Done(s) && !s.threadExit
    ensures CountStatus(s.collected, status) == CountTasks(s.suite, status)
  {
    forall i | 0 <= i < |s.collected| ensures !s.collected[i].isBreak {
      assert ReportOk(s, s.collected[i]);
    }
    TallyWithoutBreaks(s, status);
  }

  lemma {:induction false} CountIsAtMostWeighted(suite: seq<Task>, jobs: seq<Job>, status: Status)
    requires status != Interrupted
    requires forall i :: 0 <= i < |jobs| ==>
      jobs[i].isBreak || (jobs[i].number < |suite| && jobs[i] == ExpectedJob(suite, jobs[i].number))
    ensures CountStatus(jobs, status) <= Weighted(suite, |suite|, jobs, status)
  {
    if jobs == [] {
    } else {
      assert forall i :: 0 <= i < |jobs[1..]| ==> jobs[1..][i] == jobs[i + 1];
      CountIsAtMostWeighted(suite, jobs[1..], status);
      WeightedStep(suite, |suite|, jobs, status);
    }
  }

  /** Each task of the suite ends in one status, and none as interrupted. */
  lemma {:induction false} TasksCoverAll(suite: seq<Task>)
    ensures CountTasks(suite, Interrupted) == 0
    ensures CountTasks(suite, Skip) + CountTasks(suite, Pass) + CountTasks(suite, Fail) + CountTasks(suite, Valgr)
      + CountTasks(suite, Crash) == |suite|
  {
    if suite == [] {
    } else {
      TasksCoverAll(suite[..|suite| - 1]);
    }
  }

  /** SIGINT can only take away from the tally of the suite. */
  lemma TallyIsAtMostOfSuite(s: State, status: Status)
    requires Inv(s) && Done(s) && status != Interrupted
    ensures CountStatus(s.collected, status) <= CountTasks(s.suite, status)
  {
    forall i | 0 <= i < |s.collected|
      ensures s.collected[i].isBreak
        || (s.collected[i].number < |s.suite| && s.collected[i] == ExpectedJob(s.suite, s.collected[i].number))
    {
      assert ReportOk(s, s.collected[i]);
    }
    CountIsAtMostWeighted(s.suite, s.collected, status);
    WeightedIsOfSuite(s, status);
  }

  /** The whole tally is that of the suite if and only if no job was handed back as a break. */
  lemma TallyAgreesIff(s: State)
    requires Inv(s) && Done(s)
    ensures (forall status :: status != Interrupted ==> CountStatus(s.collected, status) == CountTasks(s.suite, status))
      <==> forall i :: 0 <= i < |s.collected| ==> !s.collected[i].isBreak
  {
    DoneIsClean(s);
    StatusesCoverAll(s.collected);
    TasksCoverAll(s.suite);
    if forall i :: 0 <= i < |s.collected| ==> !s.collected[i].isBreak {
      forall status | status != Interrupted ensures CountStatus(s.collected, status) == CountTasks(s.suite, status) {
        TallyWithoutBreaks(s, status);
      }
    }
  }

  /** What is promised of the end of a run: the six counts add up to the number of jobs, without an
      interrupt they are those of the suite, with one they are at most those, and the exit status is 0
      if and only if every job was handed back as passed or skipped. */
  lemma Outcome(s: State, suite: seq<Task>, processors: nat)
    requires IsReachable(s, suite, processors) && Done(s)
    ensures |s.collected| == |suite|
    ensures forall k: nat :: CountJob(s.collected, k) == if k < |suite| then 1 else 0
    ensures CountStatus(s.collected, Interrupted) + CountStatus(s.collected, Skip) + CountStatus(s.collected, Pass)
      + CountStatus(s.collected, Fail) + CountStatus(s.collected, Valgr) + CountStatus(s.collected, Crash) == |suite|
    ensures !s.threadExit ==> forall status :: CountStatus(s.collected, status) == CountTasks(suite, status)
    ensures forall status :: status != Interrupted ==> CountStatus(s.collected, status) <= CountTasks(suite, status)
    ensures ExitStatus(CountStatus(s.collected, Pass), CountStatus(s.collected, Skip), |suite|) == 0
      <==> forall i :: 0 <= i < |s.collected| ==> StatusOf(s.collected[i]) in {Pass, Skip}
  {
    ReachableInv(s, suite, processors);
    DoneIsClean(s);
    forall k: nat ensures CountJob(s.collected, k) == if k < |suite| then 1 else 0 {
      DoneCounts(s, k);
    }
    StatusesCoverAll(s.collected);
    forall status | status != Interrupted ensures CountStatus(s.collected, status) <= CountTasks(suite, status) {
      TallyIsAtMostOfSuite(s, status);
    }
    if !s.threadExit {
      forall status ensures CountStatus(s.collected, status) == CountTasks(suite, status) {
        TallyIsOfSuite(s, status);
      }
    }
  }

  function ExitStatus(passed: nat, skipped: nat, total: nat): int {
    if passed + skipped == total then 0 else 1
  }

  // ---- The tally in terms of the return codes ----

  /** The numbers of the tasks with a property. */
  ghost function Numbers(suite: seq<Task>, p: Task -> bool): set<nat> {
    set k: nat | k < |suite| && p(suite[k])
  }

  lemma NumbersMore(suite: seq<Task>, p: Task -> bool)
    requires suite != []
    ensures var n := |suite| - 1;
      |Numbers(suite, p)| == |Numbers(suite[..n], p)| + if p(suite[n]) then 1 else 0
  {
    var n := |suite| - 1;
    var before := Numbers(suite[..n], p);
    if p(suite[n]) {
      assert Numbers(suite, p) == before + {n};
    } else {
      assert Numbers(suite, p) == before;
    }
  }

  lemma {:induction false} CountTasksAre(suite: seq<Task>, status: Status, p: Task -> bool)
    requires forall k :: 0 <= k < |suite| ==> (StatusOf(ExpectedJob(suite, k)) == status <==> p(suite[k]))
    ensures CountTasks(suite, status) == |Numbers(suite, p)|
  {
    if suite == [] {
      assert Numbers(suite, p) == {};
    } else {
      var front := suite[..|suite| - 1];
      forall k | 0 <= k < |front| ensures StatusOf(ExpectedJob(front, k)) == status <==> p(front[k]) {
        assert ExpectedJob(front, k) == ExpectedJob(suite, k) && front[k] == suite[k];
      }
      CountTasksAre(front, status, p);
      NumbersMore(suite, p);
    }
  }

  /** The five counts, each as the number of the tasks that belong to it: those to be skipped, and of the
      others those that return 0, 1, 2 and anything else. */
  ghost predicate CountsCodes(
    suite: seq<Task>, passed: nat, failed: nat, valgrind: nat, crashed: nat, skipped: nat)
  {
    && passed == |Numbers(suite, (t: Task) => !t.isSkip && t.exitCode == 0)|
    && failed == |Numbers(suite, (t: Task) => !t.isSkip && t.exitCode == 1)|
    && valgrind == |Numbers(suite, (t: Task) => !t.isSkip && t.exitCode == 2)|
    && crashed == |Numbers(suite, (t: Task) => !t.isSkip && t.exitCode !in {0, 1, 2})|
    && skipped == |Numbers(suite, (t: Task) => t.isSkip)|
  }

  lemma TasksByCodes(suite: seq<Task>)
    ensures CountsCodes(suite, CountTasks(suite, Pass), CountTasks(suite, Fail), CountTasks(suite, Valgr),
      CountTasks(suite, Crash), CountTasks(suite, Skip))
  {
    CountTasksAre(suite, Pass, (t: Task) => !t.isSkip && t.exitCode == 0);
    CountTasksAre(suite, Fail, (t: Task) => !t.isSkip && t.exitCode == 1);
    CountTasksAre(suite, Valgr, (t: Task) => !t.isSkip && t.exitCode == 2);
    CountTasksAre(suite, Crash, (t: Task) => !t.isSkip && t.exitCode !in {0, 1, 2});
    CountTasksAre(suite, Skip, (t: Task) => t.isSkip);
  }

  /** The job is that of one task, and unless it was interrupted or skipped it has the task's code. */
  ghost predicate IsOfTask(suite: seq<Task>, job: Job) {
    && job.number < |suite| && job.isSkip == suite[job.number].isSkip
    && (!job.isBreak && !job.isSkip ==> job.returncode == suite[job.number].exitCode)
  }

  /** Skipped, or run with return code 0. */
  ghost predicate IsFine(job: Job) {
    !job.isBreak && (job.isSkip || job.returncode == 0)
  }

  /** Main result on return codes: every job collected is of its task; the exit status is 0 if and only
      if each was handed back skipped or with code 0; and without SIGINT the counts are those of the
      tasks and the status is 0 if and only if every task is to be skipped or returns 0. */
  lemma CodesDecide(s: State, suite: seq<Task>, processors: nat)
    requires IsReachable(s, suite, processors) && Done(s)
    ensures forall i :: 0 <= i < |s.collected| ==> IsOfTask(suite, s.collected[i])
    ensures CountStatus(s.collected, Pass) + CountStatus(s.collected, Skip) == |suite|
      <==> forall i :: 0 <= i < |s.collected| ==> IsFine(s.collected[i])
    ensures !s.threadExit ==>
      && CountsCodes(suite, CountStatus(s.collected, Pass), CountStatus(s.collected, Fail),
           CountStatus(s.collected, Valgr), CountStatus(s.collected, Crash), CountStatus(s.collected, Skip))
      && (CountStatus(s.collected, Pass) + CountStatus(s.collected, Skip) == |suite|
          <==> forall k :: 0 <= k < |suite| ==> suite[k].isSkip || suite[k].exitCode == 0)
  {
    Outcome(s, suite, processors);
    ReachableInv(s, suite, processors);
    forall i | 0 <= i < |s.collected| ensures IsOfTask(suite, s.collected[i]) {
      assert ReportOk(s, s.collected[i]);
    }
    assert forall job :: StatusOf(job) in {Pass, Skip} <==> IsFine(job);
    StatusesCoverAll(s.collected);
    if !s.threadExit {
      TasksByCodes(suite);
      AllTasksFine(suite);
    }
  }

  lemma {:induction false} AllTasksFine(suite: seq<Task>)
    ensures CountTasks(suite, Pass) + CountTasks(suite, Skip) <= |suite|
    ensures CountTasks(suite, Pass) + CountTasks(suite, Skip) == |suite|
      <==> forall k :: 0 <= k < |suite| ==> suite[k].isSkip || suite[k].exitCode == 0
  {
    if suite == [] {
    } else {
      var front := suite[..|suite| - 1];
      AllTasksFine(front);
      assert forall k :: 0 <= k < |front| ==> front[k] == suite[k];
    }
  }

  // ---- Which jobs are started ----

  lemma {:induction false} RunIsAmong(jobs: seq<Job>, k: nat)
    ensures CountRun(jobs, k) > 0 <==> exists i :: 0 <= i < |jobs| && jobs[i].number == k && WasRun(jobs[i])
    ensures CountJob(jobs, k) > 0 <==> exists i :: 0 <= i < |jobs| && jobs[i].number == k
  {
    if jobs == [] {
    } else {
      RunIsAmong(jobs[1..], k);
      assert jobs == [jobs[0]] + jobs[1..];
      assert forall i :: 0 <= i < |jobs[1..]| ==> jobs[1..][i] == jobs[i + 1];
      if i :| 0 <= i < |jobs| && jobs[i].number == k {
        assert i > 0 ==> jobs[1..][i - 1] == jobs[i];
      }
      if i :| 0 <= i < |jobs| && jobs[i].number == k && WasRun(jobs[i]) {
        assert i > 0 ==> jobs[1..][i - 1] == jobs[i];
      }
    }
  }

  /** At the end of a run without SIGINT the jobs started are those not to be skipped, each once. */
  lemma StartedExactly(s: State, suite: seq<Task>, processors: nat, k: nat)
    requires IsReachable(s, suite, processors) && Done(s) && !s.threadExit
    ensures multiset(s.launches)[k] == if k < |suite| && !suite[k].isSkip then 1 else 0
  {
    ReachableInv(s, suite, processors);
    DoneIsClean(s);
    StartedOnce(s, suite, processors, k);
    NobodyStarted(s.workers, k);
    DoneCounts(s, k);
    RunIsAmong(s.collected, k);
    forall i | 0 <= i < |s.collected| && s.collected[i].number == k
      ensures WasRun(s.collected[i]) <==> !suite[k].isSkip
    {
      assert ReportOk(s, s.collected[i]);
    }
  }

  lemma {:induction false} NobodyStarted(workers: seq<Worker>, k: nat)
    requires forall w :: 0 <= w < |workers| ==> workers[w].Exited?
    ensures Total(workers, HasStarted(k)) == 0
  {
    if workers == [] {
    } else {
      assert forall w :: 0 <= w < |workers[1..]| ==> workers[1..][w] == workers[w + 1];
      NobodyStarted(workers[1..], k);
    }
  }

  /** What the collection loop does with one job, field by field. */
  lemma AddedMeans(t: Tally, job: Job)
    ensures var run := !job.isBreak && !job.isSkip;
      var after := Added(t, job);
      && after.passedTests == t.passedTests + (if run && job.returncode == 0 then 1 else 0)
      && after.failedTests == t.failedTests + (if run && job.returncode == 1 then 1 else 0)
      && after.valgrindErrors == t.valgrindErrors + (if run && job.returncode == 2 then 1 else 0)
      && after.crashedTests == t.crashedTests + (if run && job.returncode !in {0, 1, 2} then 1 else 0)
      && after.skippedTests == t.skippedTests + (if job.isSkip && !job.isBreak then 1 else 0)
      && after.failedTestnames == (if run && job.returncode == 1 then t.failedTestnames + [job.number] else t.failedTestnames)
      && after.valgrindTestnames
         == (if run && job.returncode == 2 then t.valgrindTestnames + [job.number] else t.valgrindTestnames)
      && after.crashedTestnames
         == (if run && job.returncode !in {0, 1, 2} then t.crashedTestnames + [job.number] else t.crashedTestnames)
      && after.skippedTestnames
         == (if job.isSkip && !job.isBreak then t.skippedTestnames + [job.number] else t.skippedTestnames)
      && after.failedJobs == (if run && job.returncode != 0 then t.failedJobs + [job] else t.failedJobs)
  {
  }

  lemma InitIsReachable(suite: seq<Task>, processors: nat)
    ensures IsReachable(Init(suite, processors), suite, processors)
  {
    var steps: seq<Step> := [];
    assert IsRun(Init(suite, processors), steps) && After(Init(suite, processors), steps) == Init(suite, processors);
  }

  lemma StepIsReachable(s: State, step: Step, suite: seq<Task>, processors: nat)
    requires IsReachable(s, suite, processors) && Enabled(s, step)
    ensures IsReachable(Apply(s, step), suite, processors)
  {
    var steps :| IsRun(Init(suite, processors), steps) && After(Init(suite, processors), steps) == s;
    RunAppend(Init(suite, processors), steps, step);
  }

  // ---- Without workers ----

  lemma {:induction false} NoWorkersNoResults(s: State, steps: seq<Step>)
    requires IsRun(s, steps) && s.workers == [] && s.output == [] && s.collected == []
    ensures var t := After(s, steps); t.workers == [] && t.output == [] && t.collected == []
    decreases |steps|
  {
    if steps == [] {
    } else {
      NoWorkersNoResults(Apply(s, steps[0]), steps[1..]);
    }
  }

  /** With no worker and some job, the run stays where everything is dispatched and nothing comes back. */
  lemma WaitsForEver(s: State, suite: seq<Task>)
    requires IsReachable(s, suite, 0) && suite != []
    ensures !Done(s) && (Stuck(s) <==> !Dispatching(s))
  {
    var steps :| IsRun(Init(suite, 0), steps) && After(Init(suite, 0), steps) == s;
    NoWorkersNoResults(Init(suite, 0), steps);
    ReachableInv(s, suite, 0);
  }

  /** The state that the threads share, with the counters of the main thread. */
  class Runner {
    const suite: seq<Task>
    var workers: seq<Worker>
    var inputQueue: seq<Job>
    var outputQueue: seq<Job>
    var enqueued: nat
    var received: nat
    var joined: nat
    var threadExit: bool
    var tally: Tally
    ghost var collected: seq<Job>
    ghost var launches: seq<nat>

    ghost function View(): State
      reads this
    {
      State(suite, workers, inputQueue, outputQueue, enqueued, collected, joined, threadExit, launches)
    }

    ghost predicate Valid()
      reads this
    {
      && Inv(View()) && received == |collected|
      && tally == TallyOf(collected)
    }

    predicate CanTurn(w: nat)
      requires w < |workers|
      reads this
    {
      !workers[w].Exited? && (workers[w].Idle? ==> inputQueue != [])
    }

    constructor (suite: seq<Task>, processors: nat)
      ensures Valid() && View() == Init(suite, processors)
    {
      this.suite := suite;
      workers := seq(processors, _ => Idle);
      inputQueue, outputQueue, enqueued, received, joined, threadExit := [], [], 0, 0, 0, false;
      tally := Tally(0, 0, 0, 0, 0, [], [], [], [], []);
      collected, launches := [], [];
      new;
      InitInv(suite, processors);
    }

    method SigintHook()
      requires Valid()
      modifies this`threadExit
      ensures Valid() && View() == Apply(old(View()), Sigint)
    {
      StepKeepsInv(View(), Sigint);
      threadExit := true;
    }

    /** One turn of the loops that fill the input queue: first the jobs, then the sentinels. */
    method Enqueue()
      requires Valid() && Dispatching(View())
      modifies this`inputQueue, this`enqueued
      ensures Valid() && View() == Apply(old(View()), MainThread)
    {
      StepKeepsInv(View(), MainThread);
      inputQueue := inputQueue + [FreshJob(suite, enqueued)];
      enqueued := enqueued + 1;
    }

    /** The body of the collection loop. A job that was run is first put among the failed ones, and
        taken off again if it turns out to have passed. */
    method Count(job: Job)
      modifies this`tally
      ensures tally == Added(old(tally), job)
    {
      if job.isBreak {
        return;
      }
      var t := tally;
      if job.isSkip {
        t := t.(skippedTests := t.skippedTests + 1, skippedTestnames := t.skippedTestnames + [job.number]);
      } else {
        t := t.(failedJobs := t.failedJobs + [job]);
        if job.returncode == 0 {
          t := t.(passedTests := t.passedTests + 1, failedJobs := t.failedJobs[..|t.failedJobs| - 1]);
        } else if job.returncode == 1 {
          t := t.(failedTests := t.failedTests + 1, failedTestnames := t.failedTestnames + [job.number]);
        } else if job.returncode == 2 {
          t := t.(valgrindErrors := t.valgrindErrors + 1, valgrindTestnames := t.valgrindTestnames + [job.number]);
        } else {
          t := t.(crashedTests := t.crashedTests + 1, crashedTestnames := t.crashedTestnames + [job.number]);
        }
      }
      tally := t;
    }

    /** One turn of the collection loop. */
    method Collect()
      requires Valid() && Collecting(View()) && outputQueue != []
      modifies this
      ensures Valid() && View() == Apply(old(View()), MainThread)
    {
      StepKeepsInv(View(), MainThread);
      GetResult();
    }

    method GetResult()
      requires Collecting(View()) && outputQueue != [] && received == |collected| && tally == TallyOf(collected)
      modifies this
      ensures View() == Apply(old(View()), MainThread) && received == |collected| && tally == TallyOf(collected)
    {
      var job := outputQueue[0];
      TallyAppend(collected, job);
      Count(job);
      outputQueue, received := outputQueue[1..], received + 1;
      collected := collected + [job];
    }

    method Join()
      requires Valid() && Joining(View()) && workers[joined].Exited?
      modifies this`joined
      ensures Valid() && View() == Apply(old(View()), MainThread)
    {
      StepKeepsInv(View(), MainThread);
      joined := joined + 1;
    }

    /** One step of a worker thread's loop. */
    method WorkerTurn(w: nat)
      requires Valid() && WorkerCanStep(View(), w)
      modifies this`workers, this`inputQueue, this`outputQueue, this`launches
      ensures Valid() && View() == Apply(old(View()), Work(w))
    {
      StepKeepsInv(View(), Work(w));
      Advance(w);
    }

    method Advance(w: nat)
      requires WorkerCanStep(View(), w)
      modifies this`workers, this`inputQueue, this`outputQueue, this`launches
      ensures View() == Apply(old(View()), Work(w))
    {
      match workers[w]
      case Idle =>
        workers := workers[w := Holding(inputQueue[0])];
        inputQueue := inputQueue[1..];
      case Holding(job) =>
        if job.isBreak {
          workers := workers[w := Exited(job)];
        } else if threadExit {
          workers := workers[w := Reporting(job.(isBreak := true))];
        } else if job.isSkip {
          workers := workers[w := Reporting(job)];
        } else {
          workers := workers[w := Cleared(job)];
        }
      case Cleared(job) =>
        launches := launches + [job.number];
        workers := workers[w := Running(job)];
      case Running(job) =>
        workers := workers[w := Reporting(Ran(suite, job))];
      case Reporting(job) =>
        outputQueue := outputQueue + [job];
        workers := workers[w := Idle];
      case Exited(_) =>
    }

    /** One step of the signal, of the main thread or of a worker; any that is possible may be
        taken, and one is. */
    method Turn() returns (ghost step: Step)
      requires Valid() && !Stuck(View())
      modifies this
      ensures Valid() && Enabled(old(View()), step) && View() == Apply(old(View()), step)
      ensures step.Sigint? ==> !old(threadExit)
    {
      if !MainCanStep(View()) {
        ghost var v :| 0 <= v < |workers| && WorkerCanStep(View(), v);
        assert CanTurn(v);
      }
      if {
        case !threadExit =>
          step := Sigint;
          SigintHook();
        case enqueued < |suite| + |workers| =>
          step := MainThread;
          Enqueue();
        case enqueued >= |suite| + |workers| && received < |suite| && outputQueue != [] =>
          step := MainThread;
          Collect();
        case enqueued >= |suite| + |workers| && received >= |suite| && joined < |workers| && workers[joined].Exited? =>
          step := MainThread;
          Join();
        case exists w :: 0 <= w < |workers| && CanTurn(w) =>
          var w :| 0 <= w < |workers| && CanTurn(w);
          step := Work(w);
          WorkerTurn(w);
      }
    }

    /** Lets the threads and the signal take turns in any order until the main thread is through. With
        no worker and some job it never is: it waits for a result for ever, and there is no status. */
    method Run() returns (status: Option<int>)
      requires Valid() && View() == Init(suite, |workers|)
      modifies this
      ensures Valid() && IsReachable(View(), suite, old(|workers|))
      ensures status.None? <==> old(|workers|) == 0 && suite != []
      ensures if status.None? then Stuck(View()) && !Done(View()) else Done(View())
      ensures status.Some? ==>
        tally.passedTests + tally.failedTests + tally.valgrindErrors + tally.crashedTests + tally.skippedTests
        + CountStatus(collected, Interrupted) == |suite|
      ensures status.Some? ==>
        (status.value == 0 <==> forall i :: 0 <= i < |collected| ==> StatusOf(collected[i]) in {Pass, Skip})
      ensures forall i :: 0 <= i < |collected| && status.Some? ==> IsOfTask(suite, collected[i])
      ensures status.Some? ==> (status.value == 0 <==> forall i :: 0 <= i < |collected| ==> IsFine(collected[i]))
      ensures status.Some? && !threadExit ==>
        CountsCodes(suite, tally.passedTests, tally.failedTests, tally.valgrindErrors, tally.crashedTests,
          tally.skippedTests)
      ensures status.Some? && !threadExit ==>
        (status.value == 0 <==> forall k :: 0 <= k < |suite| ==> suite[k].isSkip || suite[k].exitCode == 0)
      ensures status.Some? ==>
        && tally.passedTests <= CountTasks(suite, Pass) && tally.failedTests <= CountTasks(suite, Fail)
        && tally.valgrindErrors <= CountTasks(suite, Valgr) && tally.crashedTests <= CountTasks(suite, Crash)
        && tally.skippedTests <= CountTasks(suite, Skip)
      ensures status.Some? && !threadExit ==>
        && tally.passedTests == CountTasks(suite, Pass) && tally.failedTests == CountTasks(suite, Fail)
        && tally.valgrindErrors == CountTasks(suite, Valgr) && tally.crashedTests == CountTasks(suite, Crash)
        && tally.skippedTests == CountTasks(suite, Skip)
    {
      TakeTurns();
      if |workers| == 0 && |suite| > 0 {
        WaitsForEver(View(), suite);
        return None;
      }
      Outcome(View(), suite, |workers|);
      CodesDecide(View(), suite, |workers|);
      status := Some(if tally.passedTests + tally.skippedTests == |suite| then 0 else 1);
    }

    method TakeTurns()
      requires Valid() && View() == Init(suite, |workers|)
      modifies this
      ensures Valid() && |workers| == old(|workers|) && IsReachable(View(), suite, |workers|)
      ensures Done(View()) || (|workers| == 0 && suite != [] && !Dispatching(View()))
    {
      ghost var processors := |workers|;
      InitIsReachable(suite, processors);
      while (enqueued < |suite| + |workers| || received < |suite| || joined < |workers|)
            && (|workers| > 0 || |suite| == 0 || enqueued < |suite|)
        invariant Valid() && IsReachable(View(), suite, processors) && |workers| == processors
        decreases StepsLeft(View()), if threadExit then 0 else 1
      {
        ghost var before := View();
        if |workers| > 0 || |suite| == 0 {
          Progress(before);
        }
        ghost var step := Turn();
        StepIsReachable(before, step, suite, processors);
        ReachableInv(View(), suite, processors);
        StepsLeftFalls(before, step);
      }
    }
  }
}

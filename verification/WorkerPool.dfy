/** The worker pool of test.py as a machine of interleaved steps. The main thread enqueues the real
    jobs and one sentinel per worker, collects as many results as it enqueued jobs and joins the
    workers; the workers take jobs from a shared queue and put them on another; SIGINT may set the
    exit flag between any two steps. */
module WorkerPool {

  /** A job object as the queues carry it. number identifies the object: the real jobs come first,
      then the sentinels. */
  datatype Job = Job(number: nat, isBreak: bool, isSkip: bool, returncode: int)

  /** What is to be done: whether the job is to be skipped and, if it is run, the code that it
      returns, which may be anything. */
  datatype Task = Task(isSkip: bool, exitCode: int)

  /** Where a worker is in its loop: waiting for a job; with a job in hand; past the check of the
      exit flag; with the job running; about to put the job on the output queue; returned. */
  datatype Worker =
    | Idle
    | Holding(job: Job)
    | Cleared(job: Job)
    | Running(job: Job)
    | Reporting(job: Job)
    | Exited(job: Job)

  /** suite has a task for each real job; launches lists the jobs started. */
  datatype State = State(
    suite: seq<Task>,
    workers: seq<Worker>,
    input: seq<Job>,
    output: seq<Job>,
    enqueued: nat,
    collected: seq<Job>,
    joined: nat,
    threadExit: bool,
    launches: seq<nat>)

  datatype Step = MainThread | Work(w: nat) | Sigint

  // ---- The machine ----

  /** The k-th job object that the main thread creates. */
  function FreshJob(suite: seq<Task>, k: nat): Job {
    if k < |suite| then Job(k, false, suite[k].isSkip, 0) else Job(k, true, false, 0)
  }

  function Init(suite: seq<Task>, processors: nat): State {
    State(suite, seq(processors, _ => Idle), [], [], 0, [], 0, false, [])
  }

  predicate Dispatching(s: State) {
    s.enqueued < |s.suite| + |s.workers|
  }

  predicate Collecting(s: State) {
    !Dispatching(s) && |s.collected| < |s.suite|
  }

  predicate Joining(s: State) {
    !Dispatching(s) && |s.suite| <= |s.collected| && s.joined < |s.workers|
  }

  predicate Done(s: State) {
    !Dispatching(s) && |s.suite| <= |s.collected| && |s.workers| <= s.joined
  }

  predicate MainCanStep(s: State) {
    || Dispatching(s)
    || (Collecting(s) && s.output != [])
    || (Joining(s) && s.workers[s.joined].Exited?)
  }

  predicate WorkerCanStep(s: State, w: nat) {
    w < |s.workers| && !s.workers[w].Exited? && (s.workers[w].Idle? ==> s.input != [])
  }

  predicate Enabled(s: State, step: Step) {
    match step
    case MainThread => MainCanStep(s)
    case Work(w) => WorkerCanStep(s, w)
    case Sigint => true
  }

  function MainStep(s: State): State
    requires MainCanStep(s)
  {
    if Dispatching(s) then
      s.(input := s.input + [FreshJob(s.suite, s.enqueued)], enqueued := s.enqueued + 1)
    else if Collecting(s) then
      s.(output := s.output[1..], collected := s.collected + [s.output[0]])
    else
      s.(joined := s.joined + 1)
  }

  /** What a worker that holds a job does next: the sentinel ends it; once it sees the exit flag it
      hands the job back marked as a break; a job to be skipped is handed back as it is. */
  function Decide(job: Job, threadExit: bool): Worker {
    if job.isBreak then Exited(job)
    else if threadExit then Reporting(job.(isBreak := true))
    else if job.isSkip then Reporting(job)
    else Cleared(job)
  }

  /** A sentinel ends a worker whatever the flag says, the flag comes before the mark for skipping, and
      only a job that is neither broken off nor skipped goes on to be started. */
  lemma DecideMeans(job: Job, threadExit: bool)
    ensures job.isBreak ==> Decide(job, threadExit) == Exited(job)
    ensures !job.isBreak && threadExit ==>
      Decide(job, threadExit) == Reporting(Job(job.number, true, job.isSkip, job.returncode))
    ensures !job.isBreak && !threadExit ==> Decide(job, threadExit) == if job.isSkip then Reporting(job) else Cleared(job)
  {
  }

  function Ran(suite: seq<Task>, job: Job): Job {
    if job.number < |suite| then job.(returncode := suite[job.number].exitCode) else job
  }

  function WorkerStep(s: State, w: nat): State
    requires WorkerCanStep(s, w)
  {
    match s.workers[w]
    case Idle => s.(workers := s.workers[w := Holding(s.input[0])], input := s.input[1..])
    case Holding(job) => s.(workers := s.workers[w := Decide(job, s.threadExit)])
    case Cleared(job) => s.(workers := s.workers[w := Running(job)], launches := s.launches + [job.number])
    case Running(job) => s.(workers := s.workers[w := Reporting(Ran(s.suite, job))])
    case Reporting(job) => s.(workers := s.workers[w := Idle], output := s.output + [job])
    case Exited(_) => s
  }

  function Apply(s: State, step: Step): State
    requires Enabled(s, step)
  {
    match step
    case MainThread => MainStep(s)
    case Work(w) => WorkerStep(s, w)
    case Sigint => s.(threadExit := true)
  }

  ghost predicate IsRun(s: State, steps: seq<Step>)
    decreases |steps|
  {
    steps == [] || (Enabled(s, steps[0]) && IsRun(Apply(s, steps[0]), steps[1..]))
  }

  ghost function After(s: State, steps: seq<Step>): State
    requires IsRun(s, steps)
    decreases |steps|
  {
    if steps == [] then s else After(Apply(s, steps[0]), steps[1..])
  }

  // ---- Sums over the workers ----

  ghost function Total(workers: seq<Worker>, weight: Worker -> nat): nat {
    if workers == [] then 0 else weight(workers[0]) + Total(workers[1..], weight)
  }

  lemma TotalUpdate(workers: seq<Worker>, w: nat, x: Worker, weight: Worker -> nat)
    requires w < |workers|
    ensures Total(workers[w := x], weight) + weight(workers[w]) == Total(workers, weight) + weight(x)
  {
    if w == 0 {
      assert workers[w := x][1..] == workers[1..];
    } else {
      assert workers[w := x][1..] == workers[1..][w - 1 := x];
      TotalUpdate(workers[1..], w - 1, x, weight);
    }
  }

  /** A sum of weights of at most one each: its bound, and what reaching the bound or zero means. */
  lemma TotalBounds(workers: seq<Worker>, weight: Worker -> nat)
    requires forall x: Worker :: weight(x) <= 1
    ensures Total(workers, weight) <= |workers|
    ensures Total(workers, weight) == |workers| ==> forall w :: 0 <= w < |workers| ==> weight(workers[w]) == 1
    ensures Total(workers, weight) == 0 <==> forall w :: 0 <= w < |workers| ==> weight(workers[w]) == 0
    ensures (forall w :: 0 <= w < |workers| ==> weight(workers[w]) == 1) ==> Total(workers, weight) == |workers|
  {
    if workers == [] {
    } else {
      TotalBounds(workers[1..], weight);
      assert forall w :: 0 <= w < |workers| ==> w == 0 || workers[w] == workers[1..][w - 1];
      assert forall w :: 0 <= w < |workers[1..]| ==> workers[1..][w] == workers[w + 1];
    }
  }

  // ---- What is counted ----

  /** The worker holds a real job. */
  function RealWeight(x: Worker): nat {
    if x.Idle? || x.Exited? || (x.Holding? && x.job.isBreak) then 0 else 1
  }

  /** The worker has taken a sentinel. */
  function SentinelWeight(x: Worker): nat {
    if x.Exited? || (x.Holding? && x.job.isBreak) then 1 else 0
  }

  function ClearedWeight(x: Worker): nat {
    if x.Cleared? then 1 else 0
  }

  /** The worker has job object k in hand. */
  ghost function HasJob(k: nat): Worker -> nat {
    (x: Worker) => if !x.Idle? && x.job.number == k then 1 else 0
  }

  /** A job handed back neither as a break nor to be skipped has been run. */
  predicate WasRun(job: Job) {
    !job.isBreak && !job.isSkip
  }

  /** The worker has started job k and has not handed it back. */
  ghost function HasStarted(k: nat): Worker -> nat {
    (x: Worker) => if (x.Running? || (x.Reporting? && WasRun(x.job))) && x.job.number == k then 1 else 0
  }

  ghost function CountJob(jobs: seq<Job>, k: nat): nat {
    if jobs == [] then 0 else (if jobs[0].number == k then 1 else 0) + CountJob(jobs[1..], k)
  }

  ghost function CountRun(jobs: seq<Job>, k: nat): nat {
    if jobs == [] then 0
    else (if WasRun(jobs[0]) && jobs[0].number == k then 1 else 0) + CountRun(jobs[1..], k)
  }

  lemma CountAppend(jobs: seq<Job>, job: Job, k: nat)
    ensures CountJob(jobs + [job], k) == CountJob(jobs, k) + if job.number == k then 1 else 0
    ensures CountRun(jobs + [job], k) == CountRun(jobs, k) + if WasRun(job) && job.number == k then 1 else 0
  {
    if jobs == [] {
      assert jobs + [job] == [job] && [job][1..] == [];
    } else {
      assert (jobs + [job])[1..] == jobs[1..] + [job];
      CountAppend(jobs[1..], job, k);
    }
  }

  // ---- The invariant ----

  /** How many job objects have left the input queue. */
  function Taken(s: State): int {
    s.enqueued - |s.input|
  }

  /** Job k as it is handed back when no exit flag is seen. */
  function ExpectedJob(suite: seq<Task>, k: nat): Job
    requires k < |suite|
  {
    if suite[k].isSkip then FreshJob(suite, k) else Ran(suite, FreshJob(suite, k))
  }

  /** The job was handed back in one of the three ways Decide and the run allow. */
  ghost predicate ReportOk(s: State, job: Job) {
    job.number < |s.suite|
    && (job.isBreak ==> s.threadExit)
    && job == if job.isBreak then FreshJob(s.suite, job.number).(isBreak := true)
              else ExpectedJob(s.suite, job.number)
  }

  ghost predicate WorkerOk(s: State, x: Worker) {
    match x
    case Idle => true
    case Holding(job) => job == FreshJob(s.suite, job.number) && job.number < Taken(s)
    case Cleared(job) => job.number < |s.suite| && job == FreshJob(s.suite, job.number) && !job.isSkip
    case Running(job) => job.number < |s.suite| && job == FreshJob(s.suite, job.number) && !job.isSkip
    case Reporting(job) => ReportOk(s, job)
    case Exited(job) => |s.suite| <= job.number < Taken(s)
  }

  ghost predicate Sizes(s: State) {
    && |s.input| <= s.enqueued <= |s.suite| + |s.workers|
    && |s.collected| <= |s.suite| && s.joined <= |s.workers|
    && (Dispatching(s) ==> s.collected == [])
    && (s.joined > 0 ==> !Dispatching(s) && |s.collected| == |s.suite|)
    && (forall w :: 0 <= w < s.joined ==> s.workers[w].Exited?)
  }

  /** The input queue holds the objects not yet taken, in the order of their creation. */
  ghost predicate Fifo(s: State)
    requires |s.input| <= s.enqueued
  {
    forall i :: 0 <= i < |s.input| ==> s.input[i] == FreshJob(s.suite, Taken(s) + i)
  }

  ghost predicate WorkersOk(s: State) {
    forall w :: 0 <= w < |s.workers| ==> WorkerOk(s, s.workers[w])
  }

  ghost predicate ReportsOk(s: State) {
    && (forall i :: 0 <= i < |s.output| ==> ReportOk(s, s.output[i]))
    && (forall i :: 0 <= i < |s.collected| ==> ReportOk(s, s.collected[i]))
  }

  ghost predicate Shape(s: State) {
    Sizes(s) && Fifo(s) && WorkersOk(s) && ReportsOk(s)
  }

  /** Of the objects taken, the first |suite| are real jobs and the rest are sentinels. */
  ghost predicate Balanced(s: State)
    requires |s.input| <= s.enqueued
  {
    && Total(s.workers, RealWeight) + |s.output| + |s.collected|
       == (if Taken(s) < |s.suite| then Taken(s) else |s.suite|)
    && Total(s.workers, SentinelWeight) == (if Taken(s) < |s.suite| then 0 else Taken(s) - |s.suite|)
  }

  /** How many places job object k is in. */
  ghost function Places(s: State, k: nat): nat {
    CountJob(s.input, k) + Total(s.workers, HasJob(k)) + CountJob(s.output, k) + CountJob(s.collected, k)
  }

  /** Every job object created is in exactly one place. */
  ghost predicate Conserved(s: State) {
    forall k: nat :: Places(s, k) == if k < s.enqueued then 1 else 0
  }

  /** How often job k is running or was handed back as run. */
  ghost function Starts(s: State, k: nat): nat {
    Total(s.workers, HasStarted(k)) + CountRun(s.output, k) + CountRun(s.collected, k)
  }

  ghost predicate LaunchesMatch(s: State) {
    forall k: nat :: multiset(s.launches)[k] == Starts(s, k)
  }

  ghost predicate Inv(s: State) {
    Shape(s) && Balanced(s) && Conserved(s) && LaunchesMatch(s)
  }

  lemma InitInv(suite: seq<Task>, processors: nat)
    ensures Inv(Init(suite, processors))
  {
    var workers := Init(suite, processors).workers;
    AllIdle(workers);
  }

  lemma AllIdle(workers: seq<Worker>)
    requires forall w :: 0 <= w < |workers| ==> workers[w].Idle?
    ensures Total(workers, RealWeight) == 0 && Total(workers, SentinelWeight) == 0 && Total(workers, ClearedWeight) == 0
    ensures forall k: nat :: Total(workers, HasJob(k)) == 0 && Total(workers, HasStarted(k)) == 0
  {
    if workers == [] {
    } else {
      assert forall w :: 0 <= w < |workers[1..]| ==> workers[1..][w] == workers[w + 1];
      AllIdle(workers[1..]);
    }
  }

  lemma MainKeepsSizes(s: State)
    requires Shape(s) && Balanced(s) && MainCanStep(s)
    ensures Sizes(MainStep(s)) && Balanced(MainStep(s)) && Fifo(MainStep(s))
  {
  }

  /** A step that changes neither the suite nor the flag keeps what is right of the workers it does
      not touch. */
  lemma WorkersStayOk(s: State, t: State)
    requires WorkersOk(s) && t.suite == s.suite && Taken(s) <= Taken(t) && (s.threadExit ==> t.threadExit)
    ensures forall w :: 0 <= w < |s.workers| ==> WorkerOk(t, s.workers[w])
  {
    forall w | 0 <= w < |s.workers| ensures WorkerOk(t, s.workers[w]) {
      assert WorkerOk(s, s.workers[w]);
    }
  }

  lemma MainKeepsShape(s: State)
    requires Shape(s) && Balanced(s) && MainCanStep(s)
    ensures Shape(MainStep(s)) && Balanced(MainStep(s))
  {
    MainKeepsSizes(s);
    WorkersStayOk(s, MainStep(s));
    if !Dispatching(s) && Collecting(s) {
      assert ReportOk(s, s.output[0]);
    }
  }

  lemma MainKeepsPlaces(s: State)
    requires Inv(s) && MainCanStep(s)
    ensures Conserved(MainStep(s)) && LaunchesMatch(MainStep(s))
  {
    var t := MainStep(s);
    forall k: nat
      ensures Places(t, k) == if k < t.enqueued then 1 else 0
      ensures multiset(t.launches)[k] == Starts(t, k)
    {
      assert Places(s, k) == if k < s.enqueued then 1 else 0;
      assert multiset(s.launches)[k] == Starts(s, k);
      if Dispatching(s) {
        CountAppend(s.input, FreshJob(s.suite, s.enqueued), k);
      } else if Collecting(s) {
        CountAppend(s.collected, s.output[0], k);
      }
    }
  }

  lemma WorkerKeepsSizes(s: State, w: nat)
    requires Shape(s) && WorkerCanStep(s, w)
    ensures Sizes(WorkerStep(s, w)) && Fifo(WorkerStep(s, w))
  {
    var t := WorkerStep(s, w);
    if s.workers[w].Idle? {
      assert forall i :: 0 <= i < |t.input| ==> t.input[i] == s.input[i + 1];
    }
  }

  lemma WorkerKeepsShape(s: State, w: nat)
    requires Shape(s) && WorkerCanStep(s, w)
    ensures Shape(WorkerStep(s, w))
  {
    var t := WorkerStep(s, w);
    WorkerKeepsSizes(s, w);
    WorkersStayOk(s, t);
    assert WorkerOk(s, s.workers[w]);
    assert WorkerOk(t, t.workers[w]) by {
      if s.workers[w].Idle? {
        assert s.input[0] == FreshJob(s.suite, Taken(s));
      }
    }
  }

  lemma WorkerKeepsBalance(s: State, w: nat)
    requires Inv(s) && WorkerCanStep(s, w)
    ensures |WorkerStep(s, w).input| <= s.enqueued && Balanced(WorkerStep(s, w))
  {
    var t := WorkerStep(s, w);
    assert WorkerOk(s, s.workers[w]);
    if s.workers[w].Idle? {
      assert s.input[0] == FreshJob(s.suite, Taken(s));
    }
    TotalUpdate(s.workers, w, t.workers[w], RealWeight);
    TotalUpdate(s.workers, w, t.workers[w], SentinelWeight);
  }

  lemma WorkerKeepsPlaces(s: State, w: nat)
    requires Inv(s) && WorkerCanStep(s, w)
    ensures Conserved(WorkerStep(s, w))
  {
    var t := WorkerStep(s, w);
    forall k: nat ensures Places(t, k) == if k < t.enqueued then 1 else 0 {
      assert Places(s, k) == if k < s.enqueued then 1 else 0;
      TotalUpdate(s.workers, w, t.workers[w], HasJob(k));
      if s.workers[w].Reporting? {
        CountAppend(s.output, s.workers[w].job, k);
      }
    }
  }

  lemma WorkerKeepsLaunches(s: State, w: nat)
    requires Inv(s) && WorkerCanStep(s, w)
    ensures LaunchesMatch(WorkerStep(s, w))
  {
    var t := WorkerStep(s, w);
    assert WorkerOk(s, s.workers[w]);
    forall k: nat ensures multiset(t.launches)[k] == Starts(t, k) {
      assert multiset(s.launches)[k] == Starts(s, k);
      TotalUpdate(s.workers, w, t.workers[w], HasStarted(k));
      if s.workers[w].Reporting? {
        CountAppend(s.output, s.workers[w].job, k);
      }
    }
  }

  lemma StepKeepsInv(s: State, step: Step)
    requires Inv(s) && Enabled(s, step)
    ensures Inv(Apply(s, step))
  {
    match step
    case MainThread =>
      MainKeepsShape(s);
      MainKeepsPlaces(s);
    case Work(w) =>
      WorkerKeepsShape(s, w);
      WorkerKeepsBalance(s, w);
      WorkerKeepsPlaces(s, w);
      WorkerKeepsLaunches(s, w);
    case Sigint =>
      assert forall k: nat :: Places(Apply(s, step), k) == Places(s, k);
      assert forall k: nat :: Starts(Apply(s, step), k) == Starts(s, k);
      var t := Apply(s, step);
      forall w | 0 <= w < |t.workers| ensures WorkerOk(t, t.workers[w]) {
        assert WorkerOk(s, s.workers[w]);
      }
  }

  lemma {:induction false} RunKeepsInv(s: State, steps: seq<Step>)
    requires Inv(s) && IsRun(s, steps)
    ensures Inv(After(s, steps))
    ensures After(s, steps).suite == s.suite && |After(s, steps).workers| == |s.workers|
    decreases |steps|
  {
    if steps == [] {
    } else {
      StepKeepsInv(s, steps[0]);
      RunKeepsInv(Apply(s, steps[0]), steps[1..]);
    }
  }
}

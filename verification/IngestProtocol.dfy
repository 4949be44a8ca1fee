/** The ingest protocol: jobs are created, queued, taken by workers, run and finished, and the
    worker pool can be shut down at any moment. One step is one uninterrupted piece of code. */
module IngestProtocol {
  import opened Common

  type Job = string

  datatype Status = Pending | Running | Completed | Failed

  /** How far a worker has come with its job. */
  datatype Stage =
    | Taken              // dequeued; the handler has not yet set the status
    | InRun              // status running; the ingest is under way
    | RunDone            // the ingest returned
    | Invalidating       // status completed; the caches are being invalidated
    | Raised             // the ingest or the invalidation raised
    | Handled            // the handler returned; `task_done` is due

  datatype Worker = Idle | Busy(job: Job, stage: Stage) | Stopped

  /** `history` records all statuses a job has had (the repository keeps the last one);
      `unfinished` is the counter behind `queue.join`; `enqueued` and `dequeued` are logs. */
  datatype State = State(
    history: map<Job, seq<Status>>, submitting: set<Job>, queue: seq<Job>, workers: seq<Worker>, unfinished: int,
    finished: set<Job>, cancelled: set<Job>, invalidationRaised: set<Job>, enqueued: seq<Job>, dequeued: seq<Job>)

  datatype Step =
    | Create(job: Job)
    | Put(job: Job)
    | Take(w: nat)
    | MarkRunning(w: nat)
    | RunReturns(w: nat)
    | RunRaises(w: nat)
    | MarkCompleted(w: nat)
    | InvalidationReturns(w: nat)
    | InvalidationRaises(w: nat)
    | MarkFailed(w: nat)
    | TaskDone(w: nat)
    | Cancel(w: nat)

  function Init(workerCount: nat): State {
    State(map[], {}, [], seq(workerCount, _ => Idle), 0, {}, {}, {}, [], [])
  }

  predicate AtStage(s: State, w: nat, stage: Stage) {
    w < |s.workers| && s.workers[w].Busy? && s.workers[w].stage == stage
  }

  predicate Enabled(s: State, step: Step, maxsize: int) {
    match step
    case Create(job) => job !in s.history                                   // a fresh uuid4
    case Put(job) => job in s.submitting && (maxsize <= 0 || |s.queue| < maxsize)
    case Take(w) => w < |s.workers| && s.workers[w] == Idle && s.queue != []
    case MarkRunning(w) => AtStage(s, w, Taken)
    case RunReturns(w) => AtStage(s, w, InRun)
    case RunRaises(w) => AtStage(s, w, InRun)
    case MarkCompleted(w) => AtStage(s, w, RunDone)
    case InvalidationReturns(w) => AtStage(s, w, Invalidating)
    case InvalidationRaises(w) => AtStage(s, w, Invalidating)
    case MarkFailed(w) => AtStage(s, w, Raised)
    case TaskDone(w) => AtStage(s, w, Handled)
    case Cancel(w) => w < |s.workers| && s.workers[w] != Stopped
  }

  function Advance(s: State, w: nat, stage: Stage): State
    requires w < |s.workers| && s.workers[w].Busy?
  {
    s.(workers := s.workers[w := s.workers[w].(stage := stage)])
  }

  /** The statuses of all jobs after `job`, if it is known, was given one more. */
  function Recorded(history: map<Job, seq<Status>>, job: Job, status: Status): map<Job, seq<Status>> {
    if job in history then history[job := history[job] + [status]] else history
  }

  function SetStatus(s: State, job: Job, status: Status): State {
    s.(history := Recorded(s.history, job, status))
  }

  function Next(s: State, step: Step, maxsize: int): State
    requires Enabled(s, step, maxsize)
  {
    match step
    case Create(job) => s.(history := s.history[job := [Pending]], submitting := s.submitting + {job})
    case Put(job) =>
      s.(submitting := s.submitting - {job}, queue := s.queue + [job], unfinished := s.unfinished + 1,
         enqueued := s.enqueued + [job])
    case Take(w) =>
      s.(queue := s.queue[1..], workers := s.workers[w := Busy(s.queue[0], Taken)],
         dequeued := s.dequeued + [s.queue[0]])
    case MarkRunning(w) => Advance(SetStatus(s, s.workers[w].job, Running), w, InRun)
    case RunReturns(w) => Advance(s, w, RunDone)
    case RunRaises(w) => Advance(s, w, Raised)
    case MarkCompleted(w) => Advance(SetStatus(s, s.workers[w].job, Completed), w, Invalidating)
    case InvalidationReturns(w) => Advance(s, w, Handled)
    case InvalidationRaises(w) =>
      Advance(s, w, Raised).(invalidationRaised := s.invalidationRaised + {s.workers[w].job})
    case MarkFailed(w) => Advance(SetStatus(s, s.workers[w].job, Failed), w, Handled)
    case TaskDone(w) =>
      s.(workers := s.workers[w := Idle], unfinished := s.unfinished - 1, finished := s.finished + {s.workers[w].job})
    case Cancel(w) =>
      if s.workers[w] == Idle then s.(workers := s.workers[w := Stopped])
      else
        // the cancellation passes the handler's `except Exception`; its `finally` still runs
        s.(workers := s.workers[w := Stopped], unfinished := s.unfinished - 1,
           cancelled := s.cancelled + {s.workers[w].job})
  }

  // ---- the invariant ----

  function BusyCount(workers: seq<Worker>): nat {
    if workers == [] then 0
    else BusyCount(workers[..|workers| - 1]) + if workers[|workers| - 1].Busy? then 1 else 0
  }

  function WorkerJobs(workers: seq<Worker>): set<Job> {
    set w | 0 <= w < |workers| && workers[w].Busy? :: workers[w].job
  }

  function Queued(s: State): set<Job> {
    set i | 0 <= i < |s.queue| :: s.queue[i]
  }

  /** Every job is in exactly one place. */
  ghost predicate Placed(s: State) {
    && s.history.Keys == s.submitting + Queued(s) + WorkerJobs(s.workers) + s.finished + s.cancelled
    && s.submitting !! Queued(s) !! WorkerJobs(s.workers) !! s.finished !! s.cancelled
    && Distinct(s.queue)
    && forall v, w :: 0 <= v < w < |s.workers| && s.workers[v].Busy? && s.workers[w].Busy? ==>
         s.workers[v].job != s.workers[w].job
  }

  const RUN_FAILED := [Pending, Running, Failed]
  const RUN_COMPLETED := [Pending, Running, Completed]
  const INVALIDATION_FAILED := [Pending, Running, Completed, Failed]

  /** What a worker's stage says about the statuses of its job so far. */
  predicate Fits(stage: Stage, history: seq<Status>, invalidationRaised: bool) {
    match stage
    case Taken => history == [Pending]
    case InRun => history == [Pending, Running]
    case RunDone => history == [Pending, Running]
    case Invalidating => history == RUN_COMPLETED
    case Raised => history == [Pending, Running] || (history == RUN_COMPLETED && invalidationRaised)
    case Handled => Ended(history, invalidationRaised)
  }

  /** The statuses of a job that was handled to the end. */
  predicate Ended(history: seq<Status>, invalidationRaised: bool) {
    history == RUN_COMPLETED || history == RUN_FAILED || (history == INVALIDATION_FAILED && invalidationRaised)
  }

  /** A beginning of such a status sequence. */
  predicate Legal(history: seq<Status>, invalidationRaised: bool) {
    history == [Pending] || history == [Pending, Running] || Ended(history, invalidationRaised)
  }

  ghost predicate Statuses(s: State) {
    && (forall j :: j in s.submitting && j in s.history ==> s.history[j] == [Pending])
    && (forall i :: 0 <= i < |s.queue| && s.queue[i] in s.history ==> s.history[s.queue[i]] == [Pending])
    && (forall w :: 0 <= w < |s.workers| && s.workers[w].Busy? && s.workers[w].job in s.history ==>
          Fits(s.workers[w].stage, s.history[s.workers[w].job], s.workers[w].job in s.invalidationRaised))
    && (forall j :: j in s.finished && j in s.history ==> Ended(s.history[j], j in s.invalidationRaised))
    && (forall j :: j in s.cancelled && j in s.history ==> Legal(s.history[j], j in s.invalidationRaised))
  }

  ghost predicate Inv(s: State) {
    && Placed(s) && Statuses(s)
    && s.unfinished == |s.queue| + BusyCount(s.workers)
    && s.enqueued == s.dequeued + s.queue
    && Distinct(s.enqueued)
    && forall i :: 0 <= i < |s.enqueued| ==> s.enqueued[i] in s.history && s.enqueued[i] !in s.submitting
  }

  lemma {:induction false} BusyCountUpdate(workers: seq<Worker>, w: nat, worker: Worker)
    requires w < |workers|
    ensures BusyCount(workers[w := worker])
         == BusyCount(workers) + (if worker.Busy? then 1 else 0) - (if workers[w].Busy? then 1 else 0)
  {
    var last := |workers| - 1;
    if w < last {
      BusyCountUpdate(workers[..last], w, worker);
      assert workers[w := worker][..last] == workers[..last][w := worker];
    } else {
      assert workers[w := worker][..last] == workers[..last];
    }
  }

  lemma WorkerJobsUpdate(s: State, w: nat, worker: Worker)
    requires Placed(s) && w < |s.workers|
    ensures WorkerJobs(s.workers[w := worker])
         == WorkerJobs(s.workers) - (if s.workers[w].Busy? then {s.workers[w].job} else {})
            + (if worker.Busy? then {worker.job} else {})
  {
    var updated := s.workers[w := worker];
    forall j | j in WorkerJobs(s.workers) && !(s.workers[w].Busy? && j == s.workers[w].job)
      ensures j in WorkerJobs(updated)
    {
      var v :| 0 <= v < |s.workers| && s.workers[v].Busy? && s.workers[v].job == j;
      assert updated[v] == s.workers[v];
    }
    if worker.Busy? {
      assert updated[w].job in WorkerJobs(updated);
    }
    if s.workers[w].Busy? {
      assert s.workers[w].job in WorkerJobs(s.workers);
    }
    forall j | j in WorkerJobs(updated)
      ensures j in WorkerJobs(s.workers) - (if s.workers[w].Busy? then {s.workers[w].job} else {})
                   || (worker.Busy? && j == worker.job)
    {
      var v :| 0 <= v < |updated| && updated[v].Busy? && updated[v].job == j;
      if v != w {
        assert s.workers[v] == updated[v];
      }
    }
  }

  lemma WorkerJobIn(s: State, w: nat)
    requires w < |s.workers| && s.workers[w].Busy?
    ensures s.workers[w].job in WorkerJobs(s.workers)
  {
  }

  /** A worker that moves on with its job, possibly setting its status. */
  lemma AdvanceKeepsInv(s: State, w: nat, stage: Stage, history: seq<Status>, raised: set<Job>)
    requires Inv(s) && w < |s.workers| && s.workers[w].Busy?
    requires raised == s.invalidationRaised || raised == s.invalidationRaised + {s.workers[w].job}
    requires Fits(stage, history, s.workers[w].job in raised)
    ensures Inv(s.(workers := s.workers[w := s.workers[w].(stage := stage)],
                   history := s.history[s.workers[w].job := history], invalidationRaised := raised))
  {
    var worker := s.workers[w].(stage := stage);
    var job := worker.job;
    var next := s.(workers := s.workers[w := worker], history := s.history[job := history], invalidationRaised := raised);
    BusyCountUpdate(s.workers, w, worker);
    WorkerJobsUpdate(s, w, worker);
    WorkerJobIn(s, w);
    assert WorkerJobs(next.workers) == WorkerJobs(s.workers);
    assert Queued(next) == Queued(s);
    forall i | 0 <= i < |s.queue|
      ensures s.queue[i] != job
    {
      assert s.queue[i] in Queued(s);
    }
  }

  lemma PlaceDisjoint(s: State, job: Job)
    requires Placed(s)
    ensures job in s.submitting ==> job !in Queued(s) && job !in WorkerJobs(s.workers) && job !in s.finished && job !in s.cancelled
    ensures job in Queued(s) ==> job !in WorkerJobs(s.workers) && job !in s.finished && job !in s.cancelled
    ensures job in WorkerJobs(s.workers) ==> job !in s.finished && job !in s.cancelled
  {
  }

  lemma CreateKeepsInv(s: State, job: Job)
    requires Inv(s) && job !in s.history
    ensures Inv(s.(history := s.history[job := [Pending]], submitting := s.submitting + {job}))
  {
    var next := s.(history := s.history[job := [Pending]], submitting := s.submitting + {job});
    assert Queued(next) == Queued(s);
    forall i | 0 <= i < |s.queue|
      ensures s.queue[i] in s.history
    {
      assert s.queue[i] in Queued(s);
    }
    forall w | 0 <= w < |s.workers| && s.workers[w].Busy?
      ensures s.workers[w].job in s.history
    {
      WorkerJobIn(s, w);
    }
  }

  lemma PutKeepsInv(s: State, job: Job)
    requires Inv(s) && job in s.submitting
    ensures Inv(s.(submitting := s.submitting - {job}, queue := s.queue + [job], unfinished := s.unfinished + 1,
                   enqueued := s.enqueued + [job]))
  {
    var next := s.(submitting := s.submitting - {job}, queue := s.queue + [job], unfinished := s.unfinished + 1,
                   enqueued := s.enqueued + [job]);
    assert Queued(next) == Queued(s) + {job} by {
      assert next.queue[|s.queue|] == job;
      forall i | 0 <= i < |s.queue|
        ensures next.queue[i] == s.queue[i] && s.queue[i] in Queued(next)
      {
      }
    }
    PlaceDisjoint(s, job);
    forall i | 0 <= i < |s.queue|
      ensures s.queue[i] != job
    {
      assert s.queue[i] in Queued(s);
    }
    assert s.dequeued + (s.queue + [job]) == s.dequeued + s.queue + [job];
  }

  lemma QueuedAfterTake(s: State, next: State)
    requires Distinct(s.queue) && s.queue != [] && next.queue == s.queue[1..]
    ensures Queued(next) == Queued(s) - {s.queue[0]}
  {
    forall i | 1 <= i < |s.queue|
      ensures s.queue[i] in Queued(next) && s.queue[i] != s.queue[0]
    {
      assert next.queue[i - 1] == s.queue[i];
    }
    forall j | j in Queued(next)
      ensures j in Queued(s)
    {
      var i :| 0 <= i < |next.queue| && next.queue[i] == j;
      assert s.queue[i + 1] == j;
    }
  }

  lemma TakeKeepsInv(s: State, w: nat)
    requires Inv(s) && w < |s.workers| && s.workers[w] == Idle && s.queue != []
    ensures Inv(s.(queue := s.queue[1..], workers := s.workers[w := Busy(s.queue[0], Taken)],
                   dequeued := s.dequeued + [s.queue[0]]))
  {
    var job := s.queue[0];
    var worker := Busy(job, Taken);
    var next := s.(queue := s.queue[1..], workers := s.workers[w := worker], dequeued := s.dequeued + [job]);
    BusyCountUpdate(s.workers, w, worker);
    WorkerJobsUpdate(s, w, worker);
    assert job in Queued(s);
    PlaceDisjoint(s, job);
    QueuedAfterTake(s, next);
    forall v | 0 <= v < |s.workers| && v != w && s.workers[v].Busy?
      ensures s.workers[v].job != job
    {
      WorkerJobIn(s, v);
    }
    assert s.dequeued + s.queue == s.dequeued + [job] + s.queue[1..];
  }

  /** A worker lets go of its job, which is then finished or cancelled. */
  lemma ReleaseKeepsInv(s: State, w: nat, worker: Worker, done: bool)
    requires Inv(s) && w < |s.workers| && s.workers[w].Busy? && !worker.Busy?
    requires done ==> s.workers[w].stage == Handled
    ensures Inv(s.(workers := s.workers[w := worker], unfinished := s.unfinished - 1,
                   finished := s.finished + (if done then {s.workers[w].job} else {}),
                   cancelled := s.cancelled + (if done then {} else {s.workers[w].job})))
  {
    var job := s.workers[w].job;
    BusyCountUpdate(s.workers, w, worker);
    WorkerJobsUpdate(s, w, worker);
    WorkerJobIn(s, w);
    PlaceDisjoint(s, job);
    assert Queued(s.(workers := s.workers[w := worker])) == Queued(s);
  }

  lemma StopKeepsInv(s: State, w: nat)
    requires Inv(s) && w < |s.workers| && s.workers[w] == Idle
    ensures Inv(s.(workers := s.workers[w := Stopped]))
  {
    BusyCountUpdate(s.workers, w, Stopped);
    WorkerJobsUpdate(s, w, Stopped);
    assert Queued(s.(workers := s.workers[w := Stopped])) == Queued(s);
  }

  /** Every step keeps the invariant, also those of a shutdown. */
  lemma StepKeepsInv(s: State, step: Step, maxsize: int)
    requires Inv(s) && Enabled(s, step, maxsize)
    ensures Inv(Next(s, step, maxsize))
  {
    match step
    case Create(job) => CreateKeepsInv(s, job);
    case Put(job) => PutKeepsInv(s, job);
    case Take(w) => TakeKeepsInv(s, w);
    case TaskDone(w) =>
      ReleaseKeepsInv(s, w, Idle, true);
      assert s.cancelled + {} == s.cancelled;
    case Cancel(w) =>
      if s.workers[w] == Idle {
        StopKeepsInv(s, w);
      } else {
        ReleaseKeepsInv(s, w, Stopped, false);
        assert s.finished + {} == s.finished;
      }
    case _ => StageStepKeepsInv(s, step, maxsize);
  }

  lemma StageStepKeepsInv(s: State, step: Step, maxsize: int)
    requires Inv(s) && Enabled(s, step, maxsize)
    requires !step.Create? && !step.Put? && !step.Take? && !step.TaskDone? && !step.Cancel?
    ensures Inv(Next(s, step, maxsize))
  {
    var w := step.w;
    var job := s.workers[w].job;
    WorkerJobIn(s, w);
    var h := s.history[job];
    assert Fits(s.workers[w].stage, h, job in s.invalidationRaised);
    assert s.history[job := h] == s.history;
    match step
    case MarkRunning(_) => AdvanceKeepsInv(s, w, InRun, h + [Running], s.invalidationRaised);
    case RunReturns(_) => AdvanceKeepsInv(s, w, RunDone, h, s.invalidationRaised);
    case RunRaises(_) => AdvanceKeepsInv(s, w, Raised, h, s.invalidationRaised);
    case MarkCompleted(_) => AdvanceKeepsInv(s, w, Invalidating, h + [Completed], s.invalidationRaised);
    case InvalidationReturns(_) => AdvanceKeepsInv(s, w, Handled, h, s.invalidationRaised);
    case InvalidationRaises(_) => AdvanceKeepsInv(s, w, Raised, h, s.invalidationRaised + {job});
    case MarkFailed(_) => AdvanceKeepsInv(s, w, Handled, h + [Failed], s.invalidationRaised);
  }

  // ---- whole runs ----

  /** The state after the steps of a run; a step that is not enabled has no effect. */
  function Run(steps: seq<Step>, workerCount: nat, maxsize: int): State {
    if steps == [] then Init(workerCount)
    else
      var s := Run(steps[..|steps| - 1], workerCount, maxsize);
      if Enabled(s, steps[|steps| - 1], maxsize) then Next(s, steps[|steps| - 1], maxsize) else s
  }

  /** Each step is enabled when it is taken. */
  predicate ValidRun(steps: seq<Step>, workerCount: nat, maxsize: int) {
    steps == [] ||
    (ValidRun(steps[..|steps| - 1], workerCount, maxsize)
     && Enabled(Run(steps[..|steps| - 1], workerCount, maxsize), steps[|steps| - 1], maxsize))
  }

  lemma {:induction false} IdleWorkers(workers: seq<Worker>)
    requires forall w :: 0 <= w < |workers| ==> workers[w] == Idle
    ensures BusyCount(workers) == 0 && WorkerJobs(workers) == {}
  {
    if workers != [] {
      IdleWorkers(workers[..|workers| - 1]);
    }
  }

  lemma {:induction false} RunKeepsInv(steps: seq<Step>, workerCount: nat, maxsize: int)
    requires ValidRun(steps, workerCount, maxsize)
    ensures Inv(Run(steps, workerCount, maxsize))
  {
    if steps == [] {
      IdleWorkers(Init(workerCount).workers);
    } else {
      RunKeepsInv(steps[..|steps| - 1], workerCount, maxsize);
      StepKeepsInv(Run(steps[..|steps| - 1], workerCount, maxsize), steps[|steps| - 1], maxsize);
    }
  }

  lemma {:induction false} QueuedCount(queue: seq<Job>)
    requires Distinct(queue)
    ensures |set i | 0 <= i < |queue| :: queue[i]| == |queue|
  {
    if queue != [] {
      var before, last := queue[..|queue| - 1], queue[|queue| - 1];
      QueuedCount(before);
      assert (set i | 0 <= i < |queue| :: queue[i]) == (set i | 0 <= i < |before| :: before[i]) + {last};
    }
  }

  lemma WorkerJobsAppend(workers: seq<Worker>, last: Worker)
    ensures WorkerJobs(workers + [last]) == WorkerJobs(workers) + (if last.Busy? then {last.job} else {})
  {
    var longer := workers + [last];
    forall job | job in WorkerJobs(longer)
      ensures job in WorkerJobs(workers) || (last.Busy? && job == last.job)
    {
      var w :| 0 <= w < |longer| && longer[w].Busy? && longer[w].job == job;
      assert w < |workers| ==> workers[w] == longer[w];
    }
    forall job | job in WorkerJobs(workers)
      ensures job in WorkerJobs(longer)
    {
      var w :| 0 <= w < |workers| && workers[w].Busy? && workers[w].job == job;
      assert longer[w] == workers[w];
    }
    assert longer[|workers|] == last;
  }

  lemma {:induction false} WorkerJobsCount(workers: seq<Worker>)
    requires forall v, w :: 0 <= v < w < |workers| && workers[v].Busy? && workers[w].Busy? ==> workers[v].job != workers[w].job
    ensures |WorkerJobs(workers)| == BusyCount(workers)
  {
    if workers != [] {
      var before, last := workers[..|workers| - 1], workers[|workers| - 1];
      WorkerJobsCount(before);
      WorkerJobsAppend(before, last);
      assert workers == before + [last];
      forall v | 0 <= v < |before| && before[v].Busy? && last.Busy?
        ensures before[v].job != last.job
      {
        assert workers[v] == before[v] && workers[|before|] == last;
      }
    }
  }

  /** Conservation, through shutdown as well: the jobs created are exactly those being submitted,
      queued, at a worker, finished or cancelled, and the counter behind `join` counts the queued
      and the busy ones. Jobs are dequeued first in, first out, and none twice. */
  lemma {:induction false} JobsAreConserved(steps: seq<Step>, workerCount: nat, maxsize: int)
    requires ValidRun(steps, workerCount, maxsize)
    ensures var s := Run(steps, workerCount, maxsize);
            && |s.history| == |s.submitting| + |s.queue| + BusyCount(s.workers) + |s.finished| + |s.cancelled|
            && s.unfinished == |s.queue| + BusyCount(s.workers)
            && s.dequeued <= s.enqueued && Distinct(s.dequeued)
  {
    RunKeepsInv(steps, workerCount, maxsize);
    var s := Run(steps, workerCount, maxsize);
    QueuedCount(s.queue);
    WorkerJobsCount(s.workers);
    var a, b, c := s.submitting, Queued(s), WorkerJobs(s.workers);
    assert |a + b + c + s.finished + s.cancelled| == |a| + |b| + |c| + |s.finished| + |s.cancelled|;
    assert |s.history| == |s.history.Keys|;
    assert forall i :: 0 <= i < |s.dequeued| ==> s.dequeued[i] == s.enqueued[i];
  }

  /** Statuses go from pending to running to completed or failed; a completed job fails only if its
      cache invalidation raised. */
  lemma StatusesAreLegal(steps: seq<Step>, workerCount: nat, maxsize: int, job: Job)
    requires ValidRun(steps, workerCount, maxsize)
    requires job in Run(steps, workerCount, maxsize).history
    ensures var s := Run(steps, workerCount, maxsize);
            && Legal(s.history[job], job in s.invalidationRaised)
            && (s.history[job] == INVALIDATION_FAILED ==> job in s.invalidationRaised)
            && (job in s.finished ==> Ended(s.history[job], job in s.invalidationRaised))
  {
    RunKeepsInv(steps, workerCount, maxsize);
    var s := Run(steps, workerCount, maxsize);
    if job in Queued(s) {
      var i :| 0 <= i < |s.queue| && s.queue[i] == job;
    }
    if job in WorkerJobs(s.workers) {
      var w :| 0 <= w < |s.workers| && s.workers[w].Busy? && s.workers[w].job == job;
    }
  }

  // ---- every job ends ----

  function StageWeight(stage: Stage): nat {
    match stage
    case Taken => 6
    case InRun => 5
    case RunDone => 4
    case Invalidating => 3
    case Raised => 2
    case Handled => 1
  }

  function Weight(worker: Worker): nat {
    match worker
    case Stopped => 0
    case Idle => 1
    case Busy(_, stage) => 1 + StageWeight(stage)
  }

  function Load(workers: seq<Worker>): nat {
    if workers == [] then 0 else Load(workers[..|workers| - 1]) + Weight(workers[|workers| - 1])
  }

  /** A bound on the steps that are left, if nothing more is created. */
  function Measure(s: State): nat {
    8 * |s.submitting| + 7 * |s.queue| + Load(s.workers)
  }

  lemma {:induction false} LoadUpdate(workers: seq<Worker>, w: nat, worker: Worker)
    requires w < |workers|
    ensures Load(workers[w := worker]) == Load(workers) + Weight(worker) - Weight(workers[w])
  {
    var last := |workers| - 1;
    if w < last {
      LoadUpdate(workers[..last], w, worker);
      assert workers[w := worker][..last] == workers[..last][w := worker];
    } else {
      assert workers[w := worker][..last] == workers[..last];
    }
  }

  lemma MeasureWithWorker(s: State, next: State, w: nat)
    requires w < |s.workers| == |next.workers| && next.workers == s.workers[w := next.workers[w]]
    requires next.submitting == s.submitting
    ensures Measure(next) == Measure(s) + 7 * |next.queue| - 7 * |s.queue| + Weight(next.workers[w]) - Weight(s.workers[w])
  {
    LoadUpdate(s.workers, w, next.workers[w]);
  }

  lemma WorkerStepDecreasesMeasure(s: State, step: Step, maxsize: int)
    requires !step.Create? && !step.Put? && Enabled(s, step, maxsize)
    ensures Measure(Next(s, step, maxsize)) < Measure(s)
  {
    var next := Next(s, step, maxsize);
    MeasureWithWorker(s, next, step.w);
  }

  /** Every step but a creation uses up some of the measure. */
  lemma StepDecreasesMeasure(s: State, step: Step, maxsize: int)
    requires Enabled(s, step, maxsize) && s.submitting <= s.history.Keys
    ensures step.Create? ==> Measure(Next(s, step, maxsize)) == Measure(s) + 8
    ensures !step.Create? ==> Measure(Next(s, step, maxsize)) < Measure(s)
  {
    if !step.Create? && !step.Put? {
      WorkerStepDecreasesMeasure(s, step, maxsize);
    }
  }

  function Created(steps: seq<Step>): nat {
    if steps == [] then 0 else Created(steps[..|steps| - 1]) + if steps[|steps| - 1].Create? then 1 else 0
  }

  lemma {:induction false} IdleLoad(workers: seq<Worker>)
    requires forall w :: 0 <= w < |workers| ==> workers[w] == Idle
    ensures Load(workers) == |workers|
  {
    if workers != [] {
      IdleLoad(workers[..|workers| - 1]);
    }
  }

  /** A run that creates `n` jobs has at most `9 * n + workerCount` steps, cancellations included. */
  lemma {:induction false} RunsAreShort(steps: seq<Step>, workerCount: nat, maxsize: int)
    requires ValidRun(steps, workerCount, maxsize)
    ensures |Run(steps, workerCount, maxsize).history| == Created(steps)
    ensures |steps| + Measure(Run(steps, workerCount, maxsize)) <= 9 * Created(steps) + workerCount
  {
    if steps == [] {
      IdleLoad(Init(workerCount).workers);
    } else {
      var before := steps[..|steps| - 1];
      RunsAreShort(before, workerCount, maxsize);
      RunKeepsInv(before, workerCount, maxsize);
      StepDecreasesMeasure(Run(before, workerCount, maxsize), steps[|steps| - 1], maxsize);
      StepOnJobs(Run(before, workerCount, maxsize), steps[|steps| - 1], maxsize);
    }
  }

  lemma StepOnJobs(s: State, step: Step, maxsize: int)
    requires Enabled(s, step, maxsize)
    ensures |Next(s, step, maxsize).history| == |s.history| + if step.Create? then 1 else 0
  {
    var next := Next(s, step, maxsize).history;
    if step.Create? {
      assert next.Keys == s.history.Keys + {step.job};
    } else {
      assert next.Keys == s.history.Keys;
    }
    assert |next| == |next.Keys| && |s.history| == |s.history.Keys|;
  }

  ghost predicate NoCancel(steps: seq<Step>) {
    forall i :: 0 <= i < |steps| ==> !steps[i].Cancel?
  }

  lemma {:induction false} WorkersStayUp(steps: seq<Step>, workerCount: nat, maxsize: int)
    requires ValidRun(steps, workerCount, maxsize) && NoCancel(steps)
    ensures var s := Run(steps, workerCount, maxsize);
            |s.workers| == workerCount && s.cancelled == {} && forall w :: 0 <= w < |s.workers| ==> s.workers[w] != Stopped
  {
    if steps != [] {
      WorkersStayUp(steps[..|steps| - 1], workerCount, maxsize);
      StepKeepsWorkersUp(Run(steps[..|steps| - 1], workerCount, maxsize), steps[|steps| - 1], maxsize);
    }
  }

  lemma StepKeepsWorkersUp(s: State, step: Step, maxsize: int)
    requires Enabled(s, step, maxsize) && !step.Cancel?
    requires s.cancelled == {} && forall w :: 0 <= w < |s.workers| ==> s.workers[w] != Stopped
    ensures var next := Next(s, step, maxsize);
            && |next.workers| == |s.workers| && next.cancelled == {}
            && forall w :: 0 <= w < |next.workers| ==> next.workers[w] != Stopped
  {
  }

  /** Nothing can happen any more, except that a new job is created or a worker is cancelled. */
  ghost predicate Quiet(s: State, maxsize: int) {
    forall step :: Enabled(s, step, maxsize) ==> step.Create? || step.Cancel?
  }

  lemma BusyWorkerCanStep(s: State, w: nat, maxsize: int)
    requires w < |s.workers| && s.workers[w].Busy?
    ensures !Quiet(s, maxsize)
  {
    var step := match s.workers[w].stage
      case Taken => MarkRunning(w)
      case InRun => RunReturns(w)
      case RunDone => MarkCompleted(w)
      case Invalidating => InvalidationReturns(w)
      case Raised => MarkFailed(w)
      case Handled => TaskDone(w);
    assert Enabled(s, step, maxsize);
  }

  lemma FinishedIsQuiet(s: State, maxsize: int)
    requires Placed(s) && s.history.Keys == s.finished
    ensures Quiet(s, maxsize)
  {
    if s.queue != [] {
      NonEmptyQueue(s);
    }
    forall w: nat | w < |s.workers| && s.workers[w].Busy?
      ensures WorkerJobs(s.workers) != {}
    {
      WorkerJobIn(s, w);
    }
    assert s.submitting == {} && Queued(s) == {} && WorkerJobs(s.workers) == {};
  }

  lemma NonEmptyQueue(s: State)
    requires s.queue != []
    ensures Queued(s) != {}
  {
    assert s.queue[0] in Queued(s);
  }

  lemma QuietIsFinished(s: State, maxsize: int)
    requires Inv(s) && Quiet(s, maxsize) && s.cancelled == {}
    requires s.workers != [] && forall w :: 0 <= w < |s.workers| ==> s.workers[w] != Stopped
    ensures s.history.Keys == s.finished
  {
    if s.workers[0].Busy? {
      BusyWorkerCanStep(s, 0, maxsize);
    } else if s.queue != [] {
      assert Enabled(s, Take(0), maxsize);
    } else if s.submitting != {} {
      var j :| j in s.submitting;
      assert Enabled(s, Put(j), maxsize);
    }
    forall job | job in s.history
      ensures job in s.finished
    {
      if job in WorkerJobs(s.workers) {
        var w :| 0 <= w < |s.workers| && s.workers[w].Busy? && s.workers[w].job == job;
        BusyWorkerCanStep(s, w, maxsize);
      }
    }
  }

  /** Without a shutdown no job gets stuck: nothing is left to do exactly when every created job has
      been handled to its end. */
  lemma QuietIffAllFinished(steps: seq<Step>, workerCount: nat, maxsize: int)
    requires ValidRun(steps, workerCount, maxsize) && NoCancel(steps) && workerCount >= 1
    ensures var s := Run(steps, workerCount, maxsize);
            Quiet(s, maxsize) <==> s.history.Keys == s.finished
  {
    var s := Run(steps, workerCount, maxsize);
    RunKeepsInv(steps, workerCount, maxsize);
    WorkersStayUp(steps, workerCount, maxsize);
    if Quiet(s, maxsize) {
      QuietIsFinished(s, maxsize);
    }
    if s.history.Keys == s.finished {
      FinishedIsQuiet(s, maxsize);
    }
  }

  /** Hence, when nothing is left to do, the status of every created job is completed or failed. */
  lemma AllJobsEnd(steps: seq<Step>, workerCount: nat, maxsize: int, job: Job)
    requires ValidRun(steps, workerCount, maxsize) && NoCancel(steps) && workerCount >= 1
    requires Quiet(Run(steps, workerCount, maxsize), maxsize)
    requires job in Run(steps, workerCount, maxsize).history
    ensures var s := Run(steps, workerCount, maxsize);
            job in s.finished && Ended(s.history[job], job in s.invalidationRaised)
  {
    RunKeepsInv(steps, workerCount, maxsize);
    QuietIffAllFinished(steps, workerCount, maxsize);
  }

  /** A run that reaches `s` can go on with a step that leads from `s` to `next`. */
  lemma Extends(steps: seq<Step>, s: State, step: Step, next: State, workerCount: nat, maxsize: int)
    requires ValidRun(steps, workerCount, maxsize) && Run(steps, workerCount, maxsize) == s
    requires Enabled(s, step, maxsize) && Next(s, step, maxsize) == next
    ensures ValidRun(steps + [step], workerCount, maxsize) && Run(steps + [step], workerCount, maxsize) == next
  {
    assert (steps + [step])[..|steps|] == steps;
  }

  /** One job on its way to a worker, and then through it. */
  function FirstSteps(job: Job): seq<Step> {
    [Create(job)] + [Put(job)] + [Take(0)] + [MarkRunning(0)]
  }

  function OneJob(job: Job): seq<Step> {
    FirstSteps(job) + [RunReturns(0)] + [MarkCompleted(0)] + [InvalidationReturns(0)] + [TaskDone(0)]
  }

  function InTheRun(job: Job): State {
    State(map[job := [Pending, Running]], {}, [], [Busy(job, InRun)], 1, {}, {}, {}, [job], [job])
  }

  lemma FirstStepsRun(job: Job, maxsize: int)
    ensures ValidRun(FirstSteps(job), 1, maxsize) && Run(FirstSteps(job), 1, maxsize) == InTheRun(job)
  {
    var s0 := State(map[], {}, [], [Idle], 0, {}, {}, {}, [], []);
    var s1 := State(map[job := [Pending]], {job}, [], [Idle], 0, {}, {}, {}, [], []);
    var s2 := State(map[job := [Pending]], {}, [job], [Idle], 1, {}, {}, {}, [job], []);
    var s3 := State(map[job := [Pending]], {}, [], [Busy(job, Taken)], 1, {}, {}, {}, [job], [job]);
    assert Init(1) == s0 && [] + [Create(job)] == [Create(job)];
    Extends([], s0, Create(job), s1, 1, maxsize);
    Extends([Create(job)], s1, Put(job), s2, 1, maxsize);
    Extends([Create(job)] + [Put(job)], s2, Take(0), s3, 1, maxsize);
    assert [Pending] + [Running] == [Pending, Running];
    assert Next(s3, MarkRunning(0), maxsize) == InTheRun(job);
    Extends([Create(job)] + [Put(job)] + [Take(0)], s3, MarkRunning(0), InTheRun(job), 1, maxsize);
  }

  function Completion(job: Job, stage: Stage): State {
    InTheRun(job).(workers := [Busy(job, stage)], history := map[job := RUN_COMPLETED])
  }

  function AllDone(job: Job): State {
    Completion(job, Handled).(workers := [Idle], unfinished := 0, finished := {job})
  }

  lemma LastStepsLead(job: Job, maxsize: int)
    ensures var ran := InTheRun(job).(workers := [Busy(job, RunDone)]);
            && Next(InTheRun(job), RunReturns(0), maxsize) == ran
            && Next(ran, MarkCompleted(0), maxsize) == Completion(job, Invalidating)
            && Next(Completion(job, Invalidating), InvalidationReturns(0), maxsize) == Completion(job, Handled)
            && Next(Completion(job, Handled), TaskDone(0), maxsize) == AllDone(job)
  {
    assert [Pending, Running] + [Completed] == RUN_COMPLETED;
    assert map[job := [Pending, Running]][job := RUN_COMPLETED] == map[job := RUN_COMPLETED];
  }

  lemma OneJobReaches(job: Job, maxsize: int)
    ensures ValidRun(OneJob(job), 1, maxsize) && Run(OneJob(job), 1, maxsize) == AllDone(job)
  {
    FirstStepsRun(job, maxsize);
    LastStepsLead(job, maxsize);
    var first := FirstSteps(job);
    var ran := InTheRun(job).(workers := [Busy(job, RunDone)]);
    Extends(first, InTheRun(job), RunReturns(0), ran, 1, maxsize);
    Extends(first + [RunReturns(0)], ran, MarkCompleted(0), Completion(job, Invalidating), 1, maxsize);
    var most := first + [RunReturns(0)] + [MarkCompleted(0)];
    Extends(most, Completion(job, Invalidating), InvalidationReturns(0), Completion(job, Handled), 1, maxsize);
    Extends(most + [InvalidationReturns(0)], Completion(job, Handled), TaskDone(0), AllDone(job), 1, maxsize);
  }

  /** Such a run is valid, needs no cancellation and ends with nothing left to do. */
  lemma OneJobRuns(job: Job, maxsize: int)
    ensures ValidRun(OneJob(job), 1, maxsize) && NoCancel(OneJob(job))
    ensures Quiet(Run(OneJob(job), 1, maxsize), maxsize)
    ensures Run(OneJob(job), 1, maxsize).history == map[job := RUN_COMPLETED]
  {
    OneJobReaches(job, maxsize);
    RunKeepsInv(OneJob(job), 1, maxsize);
    FinishedIsQuiet(AllDone(job), maxsize);
  }

  // ---- what the steps do to the job records ----

  /** The job whose record a step touches, and the status it is given. */
  function Marked(step: Step, s: State): Option<(Job, Status)> {
    match step
    case MarkRunning(w) => if w < |s.workers| && s.workers[w].Busy? then Some((s.workers[w].job, Running)) else None
    case MarkCompleted(w) => if w < |s.workers| && s.workers[w].Busy? then Some((s.workers[w].job, Completed)) else None
    case MarkFailed(w) => if w < |s.workers| && s.workers[w].Busy? then Some((s.workers[w].job, Failed)) else None
    case _ => None
  }

  lemma StepOnHistory(s: State, step: Step, maxsize: int)
    requires Enabled(s, step, maxsize)
    ensures Next(s, step, maxsize).history ==
            if step.Create? then s.history[step.job := [Pending]]
            else if Marked(step, s).Some? then Recorded(s.history, Marked(step, s).value.0, Marked(step, s).value.1)
            else s.history
  {
  }

  // ---- the bound of the queue ----

  lemma StepKeepsBound(s: State, step: Step, maxsize: int)
    requires Enabled(s, step, maxsize) && (maxsize > 0 ==> |s.queue| <= maxsize)
    ensures maxsize > 0 ==> |Next(s, step, maxsize).queue| <= maxsize
  {
  }

  /** The queue never grows beyond a positive `maxsize`; and a job that is being submitted waits exactly when
      the queue is full. */
  lemma {:induction false} QueueIsBounded(steps: seq<Step>, workerCount: nat, maxsize: int, job: Job)
    requires ValidRun(steps, workerCount, maxsize)
    ensures var s := Run(steps, workerCount, maxsize);
            && (maxsize > 0 ==> |s.queue| <= maxsize)
            && (job in s.submitting ==> (!Enabled(s, Put(job), maxsize) <==> maxsize > 0 && |s.queue| == maxsize))
  {
    if steps != [] {
      QueueIsBounded(steps[..|steps| - 1], workerCount, maxsize, job);
      StepKeepsBound(Run(steps[..|steps| - 1], workerCount, maxsize), steps[|steps| - 1], maxsize);
    }
  }

  // ---- a job that raises ends failed ----

  ghost predicate LastIsFailed(s: State, job: Job) {
    job in s.history && s.history[job] != [] && s.history[job][|s.history[job]| - 1] == Failed
  }

  /** The job is on its way to the failed status, has it, or was cut off by a shutdown. */
  ghost predicate Failing(s: State, job: Job) {
    || (exists w :: 0 <= w < |s.workers| && s.workers[w] == Busy(job, Raised))
    || (LastIsFailed(s, job) && exists w :: 0 <= w < |s.workers| && s.workers[w] == Busy(job, Handled))
    || (LastIsFailed(s, job) && job in s.finished)
    || job in s.cancelled
  }

  lemma RaisingFails(s: State, step: Step, maxsize: int)
    requires Enabled(s, step, maxsize) && (step.RunRaises? || step.InvalidationRaises?)
    ensures Failing(Next(s, step, maxsize), s.workers[step.w].job)
  {
    assert Next(s, step, maxsize).workers[step.w] == Busy(s.workers[step.w].job, Raised);
  }

  /** The worker that an enabled step is about, if there is one. */
  function WorkerOf(step: Step): Option<nat> {
    if step.Create? || step.Put? then None else Some(step.w)
  }

  lemma OtherWorkersStay(s: State, step: Step, maxsize: int, v: nat)
    requires Enabled(s, step, maxsize) && v < |s.workers| && WorkerOf(step) != Some(v)
    ensures v < |Next(s, step, maxsize).workers| && Next(s, step, maxsize).workers[v] == s.workers[v]
  {
  }

  lemma FailedStaysLast(s: State, step: Step, maxsize: int, job: Job)
    requires Inv(s) && Enabled(s, step, maxsize) && LastIsFailed(s, job)
    requires forall w :: 0 <= w < |s.workers| && s.workers[w].Busy? && s.workers[w].job == job ==> s.workers[w].stage == Handled
    ensures LastIsFailed(Next(s, step, maxsize), job)
  {
  }

  lemma FinishedIsNowhereElse(s: State, job: Job, w: nat)
    requires Placed(s) && job in s.finished && w < |s.workers| && s.workers[w].Busy?
    ensures s.workers[w].job != job
  {
    WorkerJobIn(s, w);
  }

  lemma FailedInFinishedStays(s: State, step: Step, maxsize: int, job: Job)
    requires Inv(s) && Enabled(s, step, maxsize) && job in s.finished && LastIsFailed(s, job)
    ensures Failing(Next(s, step, maxsize), job)
  {
    forall w | 0 <= w < |s.workers| && s.workers[w].Busy?
      ensures s.workers[w].job != job
    {
      FinishedIsNowhereElse(s, job, w);
    }
    FailedStaysLast(s, step, maxsize, job);
  }

  lemma FailingAtWorkerStays(s: State, step: Step, maxsize: int, v: nat)
    requires Inv(s) && Enabled(s, step, maxsize) && v < |s.workers| && s.workers[v].Busy?
    requires s.workers[v].stage == Raised || (s.workers[v].stage == Handled && LastIsFailed(s, s.workers[v].job))
    ensures Failing(Next(s, step, maxsize), s.workers[v].job)
  {
    var next, job := Next(s, step, maxsize), s.workers[v].job;
    if WorkerOf(step) != Some(v) {
      OtherWorkersStay(s, step, maxsize, v);
      if s.workers[v].stage == Handled {
        FailedStaysLast(s, step, maxsize, job);
      }
    } else if step.MarkFailed? {
      WorkerJobIn(s, v);
      assert next.workers[v] == Busy(job, Handled);
    }
  }

  lemma FailingStays(s: State, step: Step, maxsize: int, job: Job)
    requires Inv(s) && Enabled(s, step, maxsize) && Failing(s, job)
    ensures Failing(Next(s, step, maxsize), job)
  {
    if job in s.cancelled {
      assert job in Next(s, step, maxsize).cancelled;
    } else if job in s.finished && LastIsFailed(s, job) {
      FailedInFinishedStays(s, step, maxsize, job);
    } else {
      var v :| 0 <= v < |s.workers| && s.workers[v].Busy? && s.workers[v].job == job
               && (s.workers[v].stage == Raised || (s.workers[v].stage == Handled && LastIsFailed(s, job)));
      FailingAtWorkerStays(s, step, maxsize, v);
    }
  }

  lemma {:induction false} RaiserIsBusy(steps: seq<Step>, i: nat, workerCount: nat, maxsize: int)
    requires ValidRun(steps, workerCount, maxsize) && i < |steps|
    requires steps[i].RunRaises? || steps[i].InvalidationRaises?
    ensures var before := Run(steps[..i], workerCount, maxsize);
            steps[i].w < |before.workers| && before.workers[steps[i].w].Busy?
    decreases |steps|
  {
    var shorter := steps[..|steps| - 1];
    if i == |steps| - 1 {
      assert steps[..i] == shorter;
    } else {
      assert shorter[..i] == steps[..i] && shorter[i] == steps[i];
      RaiserIsBusy(shorter, i, workerCount, maxsize);
    }
  }

  /** A job whose ingest or cache invalidation raises and that is handled to its end has the status failed. */
  lemma {:induction false} RaisedJobEndsFailed(steps: seq<Step>, i: nat, workerCount: nat, maxsize: int)
    requires ValidRun(steps, workerCount, maxsize) && i < |steps|
    requires steps[i].RunRaises? || steps[i].InvalidationRaises?
    ensures var before, s := Run(steps[..i], workerCount, maxsize), Run(steps, workerCount, maxsize);
            && steps[i].w < |before.workers| && before.workers[steps[i].w].Busy?
            && Failing(s, before.workers[steps[i].w].job)
            && (before.workers[steps[i].w].job in s.finished ==> LastIsFailed(s, before.workers[steps[i].w].job))
    decreases |steps|
  {
    var shorter := steps[..|steps| - 1];
    RunKeepsInv(shorter, workerCount, maxsize);
    RunKeepsInv(steps, workerCount, maxsize);
    assert i < |steps| - 1 ==> shorter[..i] == steps[..i] && shorter[i] == steps[i];
    assert i == |steps| - 1 ==> steps[..i] == shorter;
    RaiserIsBusy(steps, i, workerCount, maxsize);
    var job := Run(steps[..i], workerCount, maxsize).workers[steps[i].w].job;
    if i == |steps| - 1 {
      RaisingFails(Run(shorter, workerCount, maxsize), steps[i], maxsize);
    } else {
      RaisedJobEndsFailed(shorter, i, workerCount, maxsize);
      FailingStays(Run(shorter, workerCount, maxsize), steps[|steps| - 1], maxsize, job);
    }
    if job in Run(steps, workerCount, maxsize).finished {
      FinishedIsFailed(Run(steps, workerCount, maxsize), job);
    }
  }

  lemma FinishedIsFailed(s: State, job: Job)
    requires Placed(s) && Failing(s, job) && job in s.finished
    ensures LastIsFailed(s, job)
  {
    forall w | 0 <= w < |s.workers| && s.workers[w].Busy?
      ensures s.workers[w].job != job
    {
      FinishedIsNowhereElse(s, job, w);
    }
  }
}

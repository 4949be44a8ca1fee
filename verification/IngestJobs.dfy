/** The in-memory job repository, whose job records are shared objects updated in place, and what a
    caller who polls it can see. */
module IngestJobs {
  import opened Common
  import opened IngestProtocol

  class IngestJob {
    const jobId: string
    const docId: string
    var status: Status
    var error: Option<string>
    var updatedAt: real

    constructor (jobId: string, docId: string, now: real)
      ensures this.jobId == jobId && this.docId == docId
      ensures status == Pending && error == None && updatedAt == now
    {
      this.jobId := jobId;
      this.docId := docId;
      status := Pending;
      error := None;
      updatedAt := now;
    }
  }

  class MemoryIngestJobStatusRepository {
    var records: map<string, IngestJob>
    /** All statuses that each job has had, in order: the histories of the ingest protocol. */
    ghost var history: map<string, seq<Status>>

    /** Every job of the protocol has a record under its own id, which shows its last status. */
    ghost predicate Valid()
      reads this, records.Values
    {
      && records.Keys == history.Keys
      && forall id :: id in records ==>
           && records[id].jobId == id && history[id] != [] && records[id].status == history[id][|history[id]| - 1]
    }

    constructor ()
      ensures Valid() && history == map[]
    {
      records := map[];
      history := map[];
    }

    /** The given job object itself becomes the record under its id; all other records stay. */
    method Create(job: IngestJob)
      requires Valid()
      modifies this
      ensures Valid() && records == old(records)[job.jobId := job]
      ensures history == old(history)[job.jobId := [job.status]]
    {
      records := records[job.jobId := job];
      history := history[job.jobId := [job.status]];
    }

    /** What is polled is the last status of the job; there is no answer exactly for unknown jobs. */
    method Get(jobId: string) returns (job: Option<IngestJob>)
      requires Valid()
      ensures job.Some? <==> jobId in history
      ensures job.Some? ==>
                && jobId in records && job.value == records[jobId] && job.value.jobId == jobId
                && history[jobId] != [] && job.value.status == history[jobId][|history[jobId]| - 1]
    {
      job := if jobId in records then Some(records[jobId]) else None;
    }

    /** A status step of the protocol: the record of this job and no other is changed. */
    method UpdateStatus(jobId: string, status: Status, error: Option<string>, now: real) returns (job: Option<IngestJob>)
      requires Valid()
      modifies this`history, if jobId in records then {records[jobId]} else {}
      ensures Valid() && history == Recorded(old(history), jobId, status)
      ensures job == if jobId in records then Some(records[jobId]) else None
      ensures job.Some? ==> job.value.status == status && job.value.error == error && job.value.updatedAt == now
      ensures forall id :: id in records && id != jobId ==> unchanged(records[id])
    {
      if jobId !in records {
        return None;
      }
      var record := records[jobId];
      record.status := status;
      record.error := error;
      record.updatedAt := now;
      history := Recorded(history, jobId, status);
      return Some(record);
    }
  }

  /** What one step of the protocol does to the repository: submitting creates a record, the handler
      sets statuses, and the other steps do not touch it. */
  method Perform(repo: MemoryIngestJobStatusRepository, s: State, step: Step, maxsize: int, docIds: Job -> string, now: real)
    requires repo.Valid() && repo.history == s.history && Enabled(s, step, maxsize)
    modifies repo, repo.records.Values
    ensures repo.Valid() && repo.history == Next(s, step, maxsize).history
    ensures forall id :: id in repo.records ==>
              (id in old(repo.records) && repo.records[id] == old(repo.records)[id]) || fresh(repo.records[id])
  {
    StepOnHistory(s, step, maxsize);
    var mark := Marked(step, s);
    if step.Create? {
      var job := new IngestJob(step.job, docIds(step.job), now);
      repo.Create(job);
    } else if mark.Some? {
      var error := if mark.value.1 == Failed then Some("") else None;
      var _ := repo.UpdateStatus(mark.value.0, mark.value.1, error, now);
    }
  }

  /** A new repository that is taken through a whole run holds the histories of that run. */
  method PerformAll(steps: seq<Step>, workerCount: nat, maxsize: int, docIds: Job -> string, now: real)
    returns (repo: MemoryIngestJobStatusRepository)
    requires ValidRun(steps, workerCount, maxsize)
    ensures fresh(repo) && repo.Valid() && repo.history == Run(steps, workerCount, maxsize).history
  {
    repo := new MemoryIngestJobStatusRepository();
    var s := Init(workerCount);
    assert steps[..0] == [];
    for i := 0 to |steps|
      invariant s == Run(steps[..i], workerCount, maxsize)
      invariant fresh(repo) && repo.Valid() && repo.history == s.history
      invariant forall id :: id in repo.records ==> fresh(repo.records[id])
    {
      PrefixOfRun(steps, i, workerCount, maxsize);
      Perform(repo, s, steps[i], maxsize, docIds, now);
      s := Next(s, steps[i], maxsize);
    }
    assert steps[..|steps|] == steps;
  }

  lemma {:induction false} PrefixOfRun(steps: seq<Step>, i: nat, workerCount: nat, maxsize: int)
    requires ValidRun(steps, workerCount, maxsize) && i < |steps|
    ensures Enabled(Run(steps[..i], workerCount, maxsize), steps[i], maxsize)
    ensures Run(steps[..i + 1], workerCount, maxsize) == Next(Run(steps[..i], workerCount, maxsize), steps[i], maxsize)
    decreases |steps|
  {
    if i < |steps| - 1 {
      var before := steps[..|steps| - 1];
      PrefixOfRun(before, i, workerCount, maxsize);
      assert before[..i] == steps[..i] && before[..i + 1] == steps[..i + 1];
    } else {
      assert steps[..i + 1] == steps;
    }
  }

  /** Polling after any run of the protocol: there is an answer exactly for the created jobs; a finished
      job is completed or failed, a job that is submitted or queued is pending, and one that failed after
      it was completed has had its cache invalidation raise. */
  method PollAfter(steps: seq<Step>, workerCount: nat, maxsize: int, docIds: Job -> string, now: real, jobId: string)
    returns (polled: Option<Status>)
    requires ValidRun(steps, workerCount, maxsize)
    ensures var s := Run(steps, workerCount, maxsize);
            && (polled.Some? <==> jobId in s.history)
            && (polled.Some? && jobId in s.finished ==> polled.value in {Completed, Failed})
            && (polled.Some? && (jobId in Queued(s) || jobId in s.submitting) ==> polled.value == Pending)
            && (polled == Some(Failed) && Completed in s.history[jobId] ==> jobId in s.invalidationRaised)
  {
    var repo := PerformAll(steps, workerCount, maxsize, docIds, now);
    var job := repo.Get(jobId);
    polled := if job.Some? then Some(job.value.status) else None;
    if job.Some? {
      PolledStatus(steps, workerCount, maxsize, jobId, job.value.status);
    }
  }

  /** What the last status of a job in a run can be. */
  lemma PolledStatus(steps: seq<Step>, workerCount: nat, maxsize: int, jobId: string, polled: Status)
    requires ValidRun(steps, workerCount, maxsize)
    requires jobId in Run(steps, workerCount, maxsize).history
    requires var h := Run(steps, workerCount, maxsize).history[jobId]; h != [] && polled == h[|h| - 1]
    ensures var s := Run(steps, workerCount, maxsize);
            && (jobId in s.finished ==> polled in {Completed, Failed})
            && (jobId in Queued(s) || jobId in s.submitting ==> polled == Pending)
            && (polled == Failed && Completed in s.history[jobId] ==> jobId in s.invalidationRaised)
  {
    RunKeepsInv(steps, workerCount, maxsize);
    StatusesAreLegal(steps, workerCount, maxsize, jobId);
    var s := Run(steps, workerCount, maxsize);
    if jobId in Queued(s) {
      var i :| 0 <= i < |s.queue| && s.queue[i] == jobId;
    }
  }
}

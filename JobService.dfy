/** The background worker: one tick selects the `Created` jobs oldest first,
    marks each `InProgress`, executes it against the provider, records
    `Completed` or `Failed`, and then sweeps out every job no longer `Created`
    that was created at or before `now` minus the retention window (an
    `InProgress` job left by an aborted tick included). A payload that cannot
    be decoded aborts the rest of the tick, sweep included. */
module JobService {
  import opened Wrappers
  import opened Ordering
  import opened Jobs
  import opened Persistence
  import opened DnsRecordData
  import opened FakeDnsService
  import Provider = FakeDnsService

  const TicksPerMinute: int := 600_000_000

  /** Finished jobs are kept for five minutes after creation. */
  const RetentionWindow: int := 5 * TicksPerMinute

  // ---------------------------------------------------------------------
  // Selecting the pending jobs
  // ---------------------------------------------------------------------

  /** The jobs still in state `Created`, in table order. */
  function CreatedJobs(jobs: seq<Job>): (r: seq<Job>)
    reads jobs
    ensures forall k :: 0 <= k < |r| ==> r[k] in jobs && r[k].state == JobState.Created
    ensures forall i :: 0 <= i < |jobs| && jobs[i].state == JobState.Created ==> jobs[i] in r
    ensures Distinct(jobs) ==> Distinct(r)
  {
    if jobs == [] then []
    else
      var init := CreatedJobs(jobs[..|jobs| - 1]);
      var last := jobs[|jobs| - 1];
      assert forall i :: 0 <= i < |jobs| - 1 ==> jobs[i] == jobs[..|jobs| - 1][i];
      assert Distinct(jobs) ==> forall k :: 0 <= k < |init| ==> init[k] != last by {
        if Distinct(jobs) {
          forall k | 0 <= k < |init| ensures init[k] != last {
            var i :| 0 <= i < |jobs| - 1 && jobs[..|jobs| - 1][i] == init[k];
          }
        }
      }
      if last.state == JobState.Created then init + [last] else init
  }

  /** The pending jobs in processing order: every `Created` job and nothing
      else, ascending by creation time. */
  function SelectPending(jobs: seq<Job>): (r: seq<Job>)
    reads jobs
    ensures OrderedByCreated(r)
    ensures forall job :: job in r ==> job in jobs && job.state == JobState.Created
    ensures forall i :: 0 <= i < |jobs| && jobs[i].state == JobState.Created ==> jobs[i] in r
    ensures Distinct(jobs) ==> Distinct(r)
  {
    var created := CreatedJobs(jobs);
    var r := ByCreated(created);
    assert Distinct(jobs) ==> Distinct(r) by {
      if Distinct(jobs) {
        DistinctPermutation(created, r);
      }
    }
    r
  }

  // ---------------------------------------------------------------------
  // Executing jobs: the specification
  // ---------------------------------------------------------------------

  /** The effect of dispatching one job: the provider's step, or the fault
      raised when a Create or Update payload cannot be decoded. */
  datatype Execution = Executed(step: ProviderStep) | DecodeFault

  /** Dispatch by action: Create and Update decode the payload and call the
      matching provider operation; Delete passes the metadata as the name. */
  function ExecuteJob(records: map<string, string>, action: JobAction, metadata: string): (e: Execution)
    ensures e.DecodeFault? <==> action != JobAction.DeleteDnsRecord && Decode(metadata).None?
    ensures e.Executed? && action == JobAction.DeleteDnsRecord ==> e.step == DeleteRecord(records, metadata)
  {
    match action
    case CreateDnsRecord =>
      (match Decode(metadata)
       case None => DecodeFault
       case Some(d) => Executed(CreateRecord(records, d.name, d.ipAddress)))
    case UpdateDnsRecord =>
      (match Decode(metadata)
       case None => DecodeFault
       case Some(d) => Executed(UpdateRecord(records, d.name, d.ipAddress)))
    case DeleteDnsRecord =>
      Executed(DeleteRecord(records, metadata))
  }

  /** The effect of running a batch: the record table afterwards, the
      provider result of each job executed, and whether the batch stopped at
      a payload it could not decode (the job at index `|outcomes|`). */
  datatype Run = Run(records: map<string, string>, outcomes: seq<Result>, aborted: bool)

  /** Runs the jobs in order, stopping at the first decode fault. */
  function RunJobs(records: map<string, string>, jobs: seq<Job>): (run: Run)
    ensures |run.outcomes| <= |jobs|
    ensures !run.aborted ==> |run.outcomes| == |jobs|
    ensures run.aborted ==>
              && |run.outcomes| < |jobs|
              && ExecuteJob(run.records, jobs[|run.outcomes|].action, jobs[|run.outcomes|].metadata).DecodeFault?
    decreases |jobs|
  {
    if jobs == [] then Run(records, [], false)
    else
      var init := jobs[..|jobs| - 1];
      var last := jobs[|jobs| - 1];
      var before := RunJobs(records, init);
      if before.aborted then before
      else
        match ExecuteJob(before.records, last.action, last.metadata)
        case DecodeFault => Run(before.records, before.outcomes, true)
        case Executed(step) => Run(step.records, before.outcomes + [step.result], false)
  }

  /** Once a batch has stopped, later jobs change nothing. */
  lemma {:induction false} AbortIsFinal(records: map<string, string>, jobs: seq<Job>, k: nat)
    requires k <= |jobs|
    requires RunJobs(records, jobs[..k]).aborted
    ensures RunJobs(records, jobs) == RunJobs(records, jobs[..k])
    decreases |jobs| - k
  {
    if k < |jobs| {
      assert jobs[..k + 1][..k] == jobs[..k];
      AbortIsFinal(records, jobs, k + 1);
    } else {
      assert jobs[..k] == jobs;
    }
  }

  /** Jobs as the command handlers enqueue them, every Create and Update
      job carrying an encoded payload, never abort a batch. */
  lemma DecodableJobsNeverAbort(records: map<string, string>, jobs: seq<Job>)
    requires forall i :: 0 <= i < |jobs| && jobs[i].action != JobAction.DeleteDnsRecord ==>
               exists d :: jobs[i].metadata == Encode(d)
    ensures !RunJobs(records, jobs).aborted
  {
    forall i | 0 <= i < |jobs| && jobs[i].action != JobAction.DeleteDnsRecord
      ensures Decode(jobs[i].metadata).Some?
    {
      var d :| jobs[i].metadata == Encode(d);
      RoundTrip(d);
    }
  }

  /** An enqueued Create job creates exactly its decoded record. */
  lemma ExecuteEnqueuedCreate(records: map<string, string>, d: DnsRecordData)
    ensures ExecuteJob(records, JobAction.CreateDnsRecord, Encode(d)) == Executed(CreateRecord(records, d.name, d.ipAddress))
  {
    RoundTrip(d);
  }

  /** An enqueued Update job updates exactly its decoded record. */
  lemma ExecuteEnqueuedUpdate(records: map<string, string>, d: DnsRecordData)
    ensures ExecuteJob(records, JobAction.UpdateDnsRecord, Encode(d)) == Executed(UpdateRecord(records, d.name, d.ipAddress))
  {
    RoundTrip(d);
  }

  // ---------------------------------------------------------------------
  // Recording the outcome
  // ---------------------------------------------------------------------

  /** The state a job is left in by a provider result. */
  function StateAfter(result: Result): JobState
  {
    if result.Ok? then JobState.Completed else JobState.Failed
  }

  /** The failure reason after a provider result: kept on success, the
      failure's message otherwise. */
  function ReasonAfter(result: Result, before: Option<string>): Option<string>
  {
    if result.Ok? then before else Some(result.message)
  }

  /** Records the provider result on the job. */
  method SetJobState(job: Job, result: Result)
    modifies job
    ensures job.state == StateAfter(result)
    ensures job.failureReason == ReasonAfter(result, old(job.failureReason))
  {
    if result.Ok? {
      job.state := JobState.Completed;
    } else {
      job.state := JobState.Failed;
      job.failureReason := Some(result.message);
    }
  }

  /** Executes one job against the provider (the switch on the job's
      action); `fault` reports a payload that could not be decoded. */
  method Dispatch(db: ApplicationDbContext, action: JobAction, metadata: string) returns (fault: bool, result: Result)
    modifies db`dnsRecords
    ensures fault <==> ExecuteJob(old(db.dnsRecords), action, metadata).DecodeFault?
    ensures fault ==> db.dnsRecords == old(db.dnsRecords)
    ensures !fault ==> ExecuteJob(old(db.dnsRecords), action, metadata) == Executed(ProviderStep(result, db.dnsRecords))
  {
    fault := false;
    match action {
      case CreateDnsRecord =>
        var data := Decode(metadata);
        if data.None? {
          fault, result := true, Fail("");
          return;
        }
        result := Provider.CreateDnsRecord(db, data.value.name, data.value.ipAddress);
      case UpdateDnsRecord =>
        var data := Decode(metadata);
        if data.None? {
          fault, result := true, Fail("");
          return;
        }
        result := Provider.UpdateDnsRecord(db, data.value.name, data.value.ipAddress);
      case DeleteDnsRecord =>
        result := Provider.DeleteDnsRecord(db, metadata);
    }
  }

  /** The body of the processing loop for one job: mark it `InProgress`,
      execute it, record the result; a fault leaves it `InProgress`. */
  method ProcessJob(db: ApplicationDbContext, job: Job) returns (fault: bool, result: Result)
    modifies db`dnsRecords, job
    ensures fault <==> ExecuteJob(old(db.dnsRecords), job.action, job.metadata).DecodeFault?
    ensures fault ==> db.dnsRecords == old(db.dnsRecords)
    ensures fault ==> job.state == JobState.InProgress && job.failureReason == old(job.failureReason)
    ensures !fault ==> ExecuteJob(old(db.dnsRecords), job.action, job.metadata) == Executed(ProviderStep(result, db.dnsRecords))
    ensures !fault ==> job.state == StateAfter(result) && job.failureReason == ReasonAfter(result, old(job.failureReason))
  {
    job.state := JobState.InProgress;
    fault, result := Dispatch(db, job.action, job.metadata);
    if !fault {
      SetJobState(job, result);
    }
  }

  /** What the worker records on a job. */
  datatype Status = Status(state: JobState, failureReason: Option<string>)

  function StatusOf(job: Job): Status
    reads job
  {
    Status(job.state, job.failureReason)
  }

  /** The recorded status of each job, position by position. */
  function Statuses(jobs: seq<Job>): (r: seq<Status>)
    reads jobs
    ensures |r| == |jobs|
  {
    seq(|jobs|, k requires 0 <= k < |jobs| reads jobs => StatusOf(jobs[k]))
  }

  /** The statuses `run` leaves `n` selected jobs in, all of which started
      `Created` without a reason: the executed jobs carry their results, the
      job that stopped an aborted batch is `InProgress`, the rest are still
      `Created`. */
  function Expected(run: Run, n: nat): (r: seq<Status>)
    ensures |r| == n
    ensures forall k :: 0 <= k < n ==>
              (r[k].failureReason.Some? <==> r[k].state == JobState.Failed)
  {
    seq(n, k requires 0 <= k < n =>
      if k < |run.outcomes| then Status(StateAfter(run.outcomes[k]), ReasonAfter(run.outcomes[k], None))
      else if k == |run.outcomes| && run.aborted then Status(JobState.InProgress, None)
      else Status(JobState.Created, None))
  }

  /** The selected jobs are exactly as `run` leaves them. */
  predicate Advanced(pending: seq<Job>, run: Run)
    reads pending
  {
    && |run.outcomes| <= |pending|
    && (run.aborted ==> |run.outcomes| < |pending|)
    && (!run.aborted ==> |run.outcomes| == |pending|)
    && Statuses(pending) == Expected(run, |pending|)
  }

  /** Executing one more job changes only that job's expected status. */
  lemma ExpectedStep(records: map<string, string>, outcomes: seq<Result>, next: map<string, string>, result: Result, n: nat)
    requires |outcomes| < n
    ensures Expected(Run(next, outcomes + [result], false), n)
            == Expected(Run(records, outcomes, false), n)[|outcomes| := Status(StateAfter(result), ReasonAfter(result, None))]
  {
  }

  /** The prescribed statuses do not depend on the records a run leaves. */
  lemma ExpectedRecordsIrrelevant(records: map<string, string>, outcomes: seq<Result>, n: nat)
    ensures Expected(Run(records, outcomes, false), n) == Expected(Run(map[], outcomes, false), n)
  {
  }

  /** Stopping at a job changes only that job's expected status. */
  lemma ExpectedAbort(records: map<string, string>, outcomes: seq<Result>, n: nat)
    requires |outcomes| < n
    ensures Expected(Run(records, outcomes, true), n)
            == Expected(Run(records, outcomes, false), n)[|outcomes| := Status(JobState.InProgress, None)]
  {
  }

  /** Every selected job a run has touched is consistent with its reason. */
  lemma AdvancedIsConsistent(pending: seq<Job>, run: Run)
    requires Advanced(pending, run)
    ensures forall job :: job in pending ==> job.Consistent()
  {
    forall job | job in pending
      ensures job.Consistent()
    {
      var k :| 0 <= k < |pending| && pending[k] == job;
      assert Statuses(pending)[k] == StatusOf(job);
    }
  }

  /** After a run every executed job is finished. A complete run finishes
      them all; an aborted one leaves its stopping job `InProgress` and
      the jobs after it `Created`. */
  lemma AdvancedStates(pending: seq<Job>, run: Run)
    requires Advanced(pending, run)
    ensures forall k :: 0 <= k < |run.outcomes| ==>
              pending[k].state == JobState.Completed || pending[k].state == JobState.Failed
    ensures !run.aborted ==> forall job :: job in pending ==>
              job.state == JobState.Completed || job.state == JobState.Failed
    ensures run.aborted ==> pending[|run.outcomes|].state == JobState.InProgress
    ensures run.aborted ==> forall k :: |run.outcomes| < k < |pending| ==> pending[k].state == JobState.Created
  {
    assert forall k :: 0 <= k < |pending| ==> Statuses(pending)[k] == StatusOf(pending[k]);
    if !run.aborted {
      forall job | job in pending
        ensures job.state == JobState.Completed || job.state == JobState.Failed
      {
        var k :| 0 <= k < |pending| && pending[k] == job;
      }
    }
  }

  // ---------------------------------------------------------------------
  // The tick
  // ---------------------------------------------------------------------

  /** The selected jobs carry, position by position, the statuses a run
      with `outcomes` so far prescribes. */
  predicate StatusesFollow(pending: seq<Job>, outcomes: seq<Result>)
    reads pending
  {
    forall k :: 0 <= k < |pending| ==>
      StatusOf(pending[k]) == Expected(Run(map[], outcomes, false), |pending|)[k]
  }

  /** One pass of the loop: processes job `i` of the selected jobs, after
      `outcomes` have been recorded for the jobs before it. A fault ends the
      batch as the run prescribes; otherwise the run and the statuses take
      one step. */
  method RunStep(db: ApplicationDbContext, pending: seq<Job>, i: nat, ghost records0: map<string, string>,
                 ghost outcomes: seq<Result>) returns (fault: bool, result: Result)
    requires Distinct(pending) && i < |pending| && |outcomes| == i
    requires RunJobs(records0, pending[..i]) == Run(db.dnsRecords, outcomes, false)
    requires StatusesFollow(pending, outcomes)
    modifies db`dnsRecords, pending[i]
    ensures fault ==> RunJobs(records0, pending) == Run(old(db.dnsRecords), outcomes, true)
    ensures fault ==> db.dnsRecords == old(db.dnsRecords)
    ensures fault ==> Advanced(pending, RunJobs(records0, pending))
    ensures fault ==> forall job :: job in pending ==> job.Consistent()
    ensures !fault ==> RunJobs(records0, pending[..i + 1]) == Run(db.dnsRecords, outcomes + [result], false)
    ensures !fault ==> StatusesFollow(pending, outcomes + [result])
  {
    var job := pending[i];
    ghost var records := db.dnsRecords;
    assert StatusOf(job) == Status(JobState.Created, None);
    label Before:
    fault, result := ProcessJob(db, job);
    assert forall k :: 0 <= k < |pending| && k != i ==> StatusOf(pending[k]) == old@Before(StatusOf(pending[k])) by {
      forall k | 0 <= k < |pending| && k != i
        ensures StatusOf(pending[k]) == old@Before(StatusOf(pending[k]))
      {
        assert pending[k] != job;
      }
    }
    if fault {
      ExpectedAbort(map[], outcomes, |pending|);
      ExpectedRecordsIrrelevant(records, outcomes, |pending|);
      assert Statuses(pending) == Expected(Run(records, outcomes, false), |pending|)[i := Status(JobState.InProgress, None)];
      StoppedRun(records0, pending, outcomes, records);
    } else {
      ProcessingContinues(records0, pending, i);
      ExpectedStep(map[], outcomes, map[], result, |pending|);
    }
  }

  /** The loop over the selected jobs, in order; returns whether a payload
      could not be decoded, which ends the loop. */
  method RunPending(db: ApplicationDbContext, pending: seq<Job>) returns (aborted: bool)
    requires Distinct(pending)
    requires forall job :: job in pending ==> job.state == JobState.Created && job.Consistent()
    modifies db`dnsRecords, pending
    ensures aborted == RunJobs(old(db.dnsRecords), pending).aborted
    ensures db.dnsRecords == RunJobs(old(db.dnsRecords), pending).records
    ensures Advanced(pending, RunJobs(old(db.dnsRecords), pending))
    ensures forall job :: job in pending ==> job.Consistent()
  {
    ghost var records0 := db.dnsRecords;
    ghost var outcomes: seq<Result> := [];
    assert StatusesFollow(pending, outcomes) by {
      forall k | 0 <= k < |pending|
        ensures StatusOf(pending[k]) == Status(JobState.Created, None)
      {
        assert pending[k] in pending;
      }
    }
    var i := 0;
    while i < |pending|
      invariant 0 <= i <= |pending| && |outcomes| == i
      invariant RunJobs(records0, pending[..i]) == Run(db.dnsRecords, outcomes, false)
      invariant StatusesFollow(pending, outcomes)
    {
      var fault, result := RunStep(db, pending, i, records0, outcomes);
      if fault {
        return true;
      }
      outcomes := outcomes + [result];
      i := i + 1;
    }
    assert pending[..|pending|] == pending;
    ExpectedRecordsIrrelevant(db.dnsRecords, outcomes, |pending|);
    assert Statuses(pending) == Expected(RunJobs(records0, pending), |pending|);
    AdvancedIsConsistent(pending, RunJobs(records0, pending));
    aborted := false;
  }

  /** Selects the `Created` jobs oldest first (`pending`) and runs them.
      Jobs that were not selected are untouched, no job is added or removed,
      states only move forward and the table invariant is kept. */
  method ProcessPendingJobs(db: ApplicationDbContext) returns (aborted: bool, ghost pending: seq<Job>)
    requires db.Valid()
    modifies db`dnsRecords, db.jobs
    ensures pending == old(SelectPending(db.jobs))
    ensures db.jobs == old(db.jobs)
    ensures forall job :: job in db.jobs ==> job.Consistent()
    ensures aborted == RunJobs(old(db.dnsRecords), pending).aborted
    ensures db.dnsRecords == RunJobs(old(db.dnsRecords), pending).records
    ensures Advanced(pending, RunJobs(old(db.dnsRecords), pending))
    ensures forall job :: job in db.jobs ==> Reachable(old(job.state), job.state)
    ensures forall job :: job in db.jobs && old(job.state) != JobState.Created ==>
              job.state == old(job.state) && job.failureReason == old(job.failureReason)
  {
    var selected := SelectPending(db.jobs);
    pending := selected;
    aborted := RunPending(db, selected);
  }

  /** The run over one more job, when that job's payload does not decode. */
  lemma ProcessingStops(records: map<string, string>, pending: seq<Job>, i: nat)
    requires i < |pending| && !RunJobs(records, pending[..i]).aborted
    requires ExecuteJob(RunJobs(records, pending[..i]).records, pending[i].action, pending[i].metadata).DecodeFault?

    ensures var run := RunJobs(records, pending[..i]);
            RunJobs(records, pending) == Run(run.records, run.outcomes, true)
  {
    assert pending[..i + 1][..i] == pending[..i];
    AbortIsFinal(records, pending, i + 1);
  }

  /** A batch that stops at job `|outcomes|` leaves the selected jobs as
      the run prescribes, each consistent with its reason. */
  lemma StoppedRun(records0: map<string, string>, pending: seq<Job>, outcomes: seq<Result>,
                   records: map<string, string>)
    requires |outcomes| < |pending|
    requires RunJobs(records0, pending[..|outcomes|]) == Run(records, outcomes, false)
    requires ExecuteJob(records, pending[|outcomes|].action, pending[|outcomes|].metadata).DecodeFault?
    requires Statuses(pending) == Expected(Run(records, outcomes, false), |pending|)[|outcomes| := Status(JobState.InProgress, None)]
    ensures RunJobs(records0, pending) == Run(records, outcomes, true)
    ensures Advanced(pending, RunJobs(records0, pending))
    ensures forall job :: job in pending ==> job.Consistent()
  {
    ProcessingStops(records0, pending, |outcomes|);
    ExpectedAbort(records, outcomes, |pending|);
    AdvancedIsConsistent(pending, RunJobs(records0, pending));
  }

  /** The run over one more job, when that job executes. */
  lemma ProcessingContinues(records: map<string, string>, pending: seq<Job>, i: nat)
    requires i < |pending| && !RunJobs(records, pending[..i]).aborted
    requires ExecuteJob(RunJobs(records, pending[..i]).records, pending[i].action, pending[i].metadata).Executed?
    ensures var run := RunJobs(records, pending[..i]);
            var step := ExecuteJob(run.records, pending[i].action, pending[i].metadata).step;
            RunJobs(records, pending[..i + 1]) == Run(step.records, run.outcomes + [step.result], false)
  {
    assert pending[..i + 1][..i] == pending[..i];
  }

  /** A finished job (any state but `Created`) created at or before `limit`. */
  predicate Expired(job: Job, limit: Timestamp)
    reads job
  {
    job.state != JobState.Created && job.created <= limit
  }

  /** Jobs taken from all but the last entry of a table differ from that
      last entry, and carry other identifiers, when the table has no
      repetitions. */
  lemma EarlierJobsDiffer(jobs: seq<Job>, earlier: seq<Job>)
    requires jobs != []
    requires forall k :: 0 <= k < |earlier| ==> earlier[k] in jobs[..|jobs| - 1]
    ensures Distinct(jobs) ==> forall k :: 0 <= k < |earlier| ==> earlier[k] != jobs[|jobs| - 1]
    ensures UniqueIds(jobs) ==> forall k :: 0 <= k < |earlier| ==> earlier[k].id != jobs[|jobs| - 1].id
  {
    forall k | 0 <= k < |earlier|
      ensures Distinct(jobs) ==> earlier[k] != jobs[|jobs| - 1]
      ensures UniqueIds(jobs) ==> earlier[k].id != jobs[|jobs| - 1].id
    {
      var i :| 0 <= i < |jobs| - 1 && jobs[..|jobs| - 1][i] == earlier[k];
      assert jobs[i] == earlier[k];
    }
  }

  /** The jobs the sweep keeps, in table order: exactly those not expired. */
  function Retained(jobs: seq<Job>, limit: Timestamp): (r: seq<Job>)
    reads jobs
    ensures forall k :: 0 <= k < |r| ==> r[k] in jobs && !Expired(r[k], limit)
    ensures forall i :: 0 <= i < |jobs| ==> (jobs[i] in r <==> !Expired(jobs[i], limit))
    ensures Distinct(jobs) ==> Distinct(r)
    ensures UniqueIds(jobs) ==> UniqueIds(r)
  {
    if jobs == [] then []
    else
      var init := Retained(jobs[..|jobs| - 1], limit);
      var last := jobs[|jobs| - 1];
      assert forall i :: 0 <= i < |jobs| - 1 ==> jobs[i] == jobs[..|jobs| - 1][i];
      EarlierJobsDiffer(jobs, init);
      if !Expired(last, limit) then init + [last] else init
  }

  /** Deletes every finished job created at or before `now` minus the
      retention window, whatever its outcome; `InProgress` jobs left by an
      aborted tick are swept too. */
  method RemovePastJobs(db: ApplicationDbContext, now: Timestamp)
    modifies db`jobs
    ensures db.jobs == Retained(old(db.jobs), now - RetentionWindow)
  {
    var limit := now - RetentionWindow;
    db.jobs := Retained(db.jobs, limit);
  }

  /** How a tick ended. */
  datatype TickOutcome = Finished | Aborted

  /** One tick of the worker: process the pending jobs (`pending`, the
      `Created` jobs oldest first), then sweep. A decode fault ends the tick
      before the sweep. */
  method ProcessJobs(db: ApplicationDbContext, now: Timestamp) returns (outcome: TickOutcome, ghost pending: seq<Job>)
    requires db.Valid()
    modifies db, db.jobs
    ensures pending == old(SelectPending(db.jobs))
    ensures db.Valid()
    ensures outcome == Aborted <==> RunJobs(old(db.dnsRecords), pending).aborted
    ensures db.dnsRecords == RunJobs(old(db.dnsRecords), pending).records
    ensures Advanced(pending, RunJobs(old(db.dnsRecords), pending))
    ensures outcome == Aborted ==> db.jobs == old(db.jobs)
    ensures outcome == Finished ==> db.jobs == Retained(old(db.jobs), now - RetentionWindow)
    ensures forall job :: job in old(db.jobs) ==> Reachable(old(job.state), job.state)
    ensures forall job :: job in old(db.jobs) && old(job.state) != JobState.Created ==>
              job.state == old(job.state) && job.failureReason == old(job.failureReason)
  {
    var aborted;
    aborted, pending := ProcessPendingJobs(db);
    if aborted {
      outcome := Aborted;
    } else {
      RemovePastJobs(db, now);
      outcome := Finished;
    }
  }
}

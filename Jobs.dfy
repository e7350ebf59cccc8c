/** The job entity of the domain: its closed enumerations and the mutable
    record the worker advances through its lifecycle. */
module Jobs {
  import opened Wrappers
  import Ordering

  /** The job lifecycle state. */
  datatype JobState = Created | InProgress | Completed | Failed

  /** The DNS change a job asks for. */
  datatype JobAction = CreateDnsRecord | UpdateDnsRecord | DeleteDnsRecord

  /** Job identifiers: fresh values are supplied by the caller. */
  type JobId = nat

  /** Timestamps, in 100-nanosecond ticks. */
  type Timestamp = int

  /** A queued job. `id`, `action`, `metadata` and `created` are set once at
      construction and never change; only `state` and `failureReason` are
      updated afterwards. */
  class Job {
    const id: JobId
    const action: JobAction
    const metadata: string
    const created: Timestamp
    var state: JobState
    var failureReason: Option<string>

    /** A new job starts in `Created` and has no failure reason. */
    constructor (id: JobId, action: JobAction, metadata: string, created: Timestamp)
      ensures this.id == id && this.action == action
      ensures this.metadata == metadata && this.created == created
      ensures state == JobState.Created && failureReason == None
    {
      this.id := id;
      this.action := action;
      this.metadata := metadata;
      this.created := created;
      state := JobState.Created;
      failureReason := None;
    }

    /** A job carries a failure reason exactly when it has failed. */
    predicate Consistent()
      reads this
    {
      failureReason.Some? <==> state == JobState.Failed
    }
  }

  /** Position of a state along the forward-only lifecycle
      Created -> InProgress -> {Completed | Failed}. */
  function Stage(s: JobState): nat
  {
    match s
    case Created => 0
    case InProgress => 1
    case Completed => 2
    case Failed => 2
  }

  /** `to` can be reached from `from` by zero or more forward transitions:
      the lifecycle never goes back, and the two final states are never left. */
  predicate Reachable(from: JobState, to: JobState)
  {
    from == to || Stage(from) < Stage(to)
  }

  /** Reachability is transitive, so the states a job passes through over
      several worker ticks also only move forward. */
  lemma ReachableTransitive(a: JobState, b: JobState, c: JobState)
    requires Reachable(a, b) && Reachable(b, c)
    ensures Reachable(a, c)
  {
  }

  /** No state other than `Created` leads back to `Created`, and the final
      states lead nowhere else. */
  lemma ReachableIsForwardOnly(from: JobState, to: JobState)
    requires Reachable(from, to)
    ensures to == JobState.Created ==> from == JobState.Created
    ensures from == JobState.Completed ==> to == JobState.Completed
    ensures from == JobState.Failed ==> to == JobState.Failed
  {
  }

  /** The creation time of a job, as a sort key. */
  function CreatedAt(job: Job): Timestamp
  {
    job.created
  }

  /** No two jobs share an identifier: the identifier is the job table's
      key. Identifiers are constants, so this depends on the sequence only. */
  predicate UniqueIds(jobs: seq<Job>)
  {
    forall i, k :: 0 <= i < k < |jobs| ==> jobs[i].id != jobs[k].id
  }

  /** Jobs in ascending order of creation time. */
  predicate OrderedByCreated(jobs: seq<Job>)
  {
    forall i, j :: 0 <= i < j < |jobs| ==> jobs[i].created <= jobs[j].created
  }

  /** The jobs ordered by creation time, oldest first: a permutation of
      `jobs`. Jobs created at the same time keep their relative order. */
  function ByCreated(jobs: seq<Job>): (r: seq<Job>)
    ensures OrderedByCreated(r)
    ensures multiset(r) == multiset(jobs)
    ensures |r| == |jobs|
    ensures forall i :: 0 <= i < |jobs| ==> jobs[i] in r
    ensures forall k :: 0 <= k < |r| ==> r[k] in jobs
  {
    var r := Ordering.SortByKey(jobs, CreatedAt);
    assert Ordering.SortedBy(r, CreatedAt);
    assert forall i :: 0 <= i < |jobs| ==> jobs[i] in multiset(r);
    assert forall k :: 0 <= k < |r| ==> r[k] in multiset(jobs);
    r
  }
}

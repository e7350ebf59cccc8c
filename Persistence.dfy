/** The application's database context: the job table and the DNS record
    table, held in memory. */
module Persistence {
  import opened Wrappers
  import opened Jobs
  import Ordering

  /** The two tables. Records are keyed by name, so a name occurs at most
      once; the job table holds each job object once. */
  class ApplicationDbContext {
    var jobs: seq<Job>
    var dnsRecords: map<string, string>

    /** The table invariant: no job is stored twice, no two jobs share an
        identifier (the table's key), and a job carries a failure reason
        exactly when it has failed. */
    ghost predicate Valid()
      reads this, jobs
    {
      && Ordering.Distinct(jobs)
      && UniqueIds(jobs)
      && (forall job :: job in jobs ==> job.Consistent())
    }

    /** `after` is `before` with exactly one new job appended: in state
        `Created`, without a failure reason, and with the given fields. */
    static ghost predicate EnqueuedOne(before: seq<Job>, after: seq<Job>, id: JobId, action: JobAction,
                                       metadata: string, created: Timestamp)
      reads after
    {
      && |after| == |before| + 1
      && after[..|before|] == before
      && after[|before|].id == id
      && after[|before|].action == action
      && after[|before|].metadata == metadata
      && after[|before|].created == created
      && after[|before|].state == JobState.Created
      && after[|before|].failureReason == None
    }

    /** Adds a new job to the job table under an identifier no stored job
        has (the caller draws a fresh one). */
    method AddJob(id: JobId, action: JobAction, metadata: string, created: Timestamp)
      requires Valid()
      requires forall job :: job in jobs ==> job.id != id
      modifies this`jobs
      ensures Valid()
      ensures EnqueuedOne(old(jobs), jobs, id, action, metadata, created)
      ensures fresh(jobs[|old(jobs)|])
    {
      var job := new Job(id, action, metadata, created);
      jobs := jobs + [job];
    }

    constructor ()
      ensures Valid() && jobs == [] && dnsRecords == map[]
    {
      jobs := [];
      dnsRecords := map[];
    }
  }
}

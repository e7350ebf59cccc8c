/** The job listing: every job, oldest first, with a readable description
    decoded from its metadata and a readable state label. */
module GetJobs {
  import opened Wrappers
  import opened Jobs
  import opened Persistence
  import opened DnsRecordData

  datatype GetJobsResultItem = GetJobsResultItem(id: JobId, description: string, state: string)

  /** The description of a job; `None` stands for the exception raised when
      a Create or Update payload cannot be decoded. A Delete job's metadata is
      shown as it is. */
  function Describe(action: JobAction, metadata: string): (r: Option<string>)
    ensures r.None? <==> action != JobAction.DeleteDnsRecord && Decode(metadata).None?
  {
    match action
    case CreateDnsRecord =>
      (match Decode(metadata)
       case None => None
       case Some(d) => Some("Create DNS record '" + d.name + "' with IP address '" + d.ipAddress + "'"))
    case UpdateDnsRecord =>
      (match Decode(metadata)
       case None => None
       case Some(d) => Some("Update DNS record '" + d.name + "' with IP address '" + d.ipAddress + "'"))
    case DeleteDnsRecord =>
      Some("Delete DNS record '" + metadata + "'")
  }

  /** The state label; an absent failure reason prints as the empty text. */
  function StateLabel(state: JobState, failureReason: Option<string>): (r: string)
    ensures "Failed: " <= r <==> state == JobState.Failed
  {
    match state
    case Created => "Created"
    case InProgress => assert "In Progress"[0] != 'F'; "In Progress"
    case Completed => assert "Completed"[0] != 'F'; "Completed"
    case Failed => "Failed: " + (if failureReason.Some? then failureReason.value else "")
  }

  /** The listing item of each job, in the order given; `None` when some job
      cannot be described. */
  function Project(jobs: seq<Job>): (r: Option<seq<GetJobsResultItem>>)
    reads jobs
    ensures r.Some? <==> forall i :: 0 <= i < |jobs| ==> Describe(jobs[i].action, jobs[i].metadata).Some?
    ensures r.Some? ==> |r.value| == |jobs|
    ensures r.Some? ==> forall i :: 0 <= i < |jobs| ==>
              && r.value[i].id == jobs[i].id
              && Some(r.value[i].description) == Describe(jobs[i].action, jobs[i].metadata)
              && r.value[i].state == StateLabel(jobs[i].state, jobs[i].failureReason)
  {
    if jobs == [] then Some([])
    else
      match Describe(jobs[0].action, jobs[0].metadata)
      case None => None
      case Some(description) =>
        var tail := Project(jobs[1..]);
        assert forall i :: 1 <= i < |jobs| ==> jobs[i] == jobs[1..][i - 1];
        if tail.None? then None
        else
          var item := GetJobsResultItem(jobs[0].id, description, StateLabel(jobs[0].state, jobs[0].failureReason));
          Some([item] + tail.value)
  }

  /** The query: one item per job, in ascending order of creation time, each
      carrying its job's identifier. Nothing is written. */
  function Handle(db: ApplicationDbContext): (r: Option<seq<GetJobsResultItem>>)
    reads db, db.jobs
    ensures r.Some? <==> forall i :: 0 <= i < |db.jobs| ==> Describe(db.jobs[i].action, db.jobs[i].metadata).Some?
    ensures r.Some? ==> |r.value| == |db.jobs|
    ensures r.Some? ==> var ordered := ByCreated(db.jobs);
              forall i :: 0 <= i < |r.value| ==>
                && r.value[i].id == ordered[i].id
                && Some(r.value[i].description) == Describe(ordered[i].action, ordered[i].metadata)
                && r.value[i].state == StateLabel(ordered[i].state, ordered[i].failureReason)
  {
    var ordered := ByCreated(db.jobs);
    Project(ordered)
  }

  /** A Create job describes its decoded name and address. */
  lemma DescribeCreate(d: DnsRecordData)
    ensures Describe(JobAction.CreateDnsRecord, Encode(d))
            == Some("Create DNS record '" + d.name + "' with IP address '" + d.ipAddress + "'")
  {
    RoundTrip(d);
  }

  /** An Update job describes its decoded name and address. */
  lemma DescribeUpdate(d: DnsRecordData)
    ensures Describe(JobAction.UpdateDnsRecord, Encode(d))
            == Some("Update DNS record '" + d.name + "' with IP address '" + d.ipAddress + "'")
  {
    RoundTrip(d);
  }

  /** Reads a state label back: the state it names and, for a failed job,
      the reason it shows. */
  function ParseStateLabel(text: string): Option<(JobState, string)>
  {
    if text == "Created" then Some((JobState.Created, ""))
    else if text == "In Progress" then Some((JobState.InProgress, ""))
    else if text == "Completed" then Some((JobState.Completed, ""))
    else if "Failed: " <= text then Some((JobState.Failed, text[8..]))
    else None
  }

  /** Every label reads back to its state, and a failed job's label to its
      reason: the listing tells the states apart. */
  lemma StateLabelRoundTrip(state: JobState, failureReason: Option<string>)
    ensures var parsed := ParseStateLabel(StateLabel(state, failureReason));
            && parsed.Some?
            && parsed.value.0 == state
            && (state == JobState.Failed && failureReason.Some? ==> parsed.value.1 == failureReason.value)
  {
    if state == JobState.Failed {
      var text := StateLabel(state, failureReason);
      assert text[0] == 'F';
      assert "Created"[0] == 'C' && "In Progress"[0] == 'I' && "Completed"[0] == 'C';
    }
  }
}

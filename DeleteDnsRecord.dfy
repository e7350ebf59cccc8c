/** The Delete DNS record command: its validator (the name only), its
    handler, and the command as sent through the validation stage. */
module DeleteDnsRecord {
  import opened Wrappers
  import opened Jobs
  import opened Persistence
  import opened ValidationBehavior
  import opened DnsRules

  datatype DeleteDnsRecordCommand = DeleteDnsRecordCommand(name: string)

  /** The validator: the Name rule only; there is no address to check. */
  function Validator(command: DeleteDnsRecordCommand): (fs: seq<ValidationFailure>)
    ensures fs == [] <==> IsValidName(command.name)
    ensures forall i :: 0 <= i < |fs| ==> fs[i].propertyName == "Name"
  {
    NameRule(Some(command.name))
  }

  /** The handler: enqueues one Delete job whose metadata is the name
      itself, unencoded; it does not touch the DNS records. */
  method Handle(db: ApplicationDbContext, command: DeleteDnsRecordCommand, id: JobId, now: Timestamp)
    returns (r: Result)
    requires db.Valid()
    requires forall job :: job in db.jobs ==> job.id != id
    modifies db`jobs
    ensures db.Valid() && r == Ok
    ensures ApplicationDbContext.EnqueuedOne(old(db.jobs), db.jobs, id, JobAction.DeleteDnsRecord, command.name, now)
    ensures fresh(db.jobs[|old(db.jobs)|])
  {
    db.AddJob(id, JobAction.DeleteDnsRecord, command.name, now);
    r := Ok;
  }

  /** The validation stage applied to the command alone: an invalid name is
      rejected with the single validation error that lists it under "Name". */
  function Decide(command: DeleteDnsRecordCommand): (d: Decision)
    ensures d.Proceed? <==> IsValidName(command.name)
    ensures d.Reject? ==> d.error == ValidationError(ValidationErrorMessage, map["Name" := [NameMessage]])
  {
    var validator := (c: DeleteDnsRecordCommand) => Validator(c);
    SingleValidatorGate(validator, command);
    NameGrouping(command.name);
    Gate([validator], command)
  }

  /** The command sent through the validation stage: an invalid name is
      rejected with its one message and no job is enqueued. */
  method Send(db: ApplicationDbContext, command: DeleteDnsRecordCommand, id: JobId, now: Timestamp)
    returns (r: Response<Result>)
    requires db.Valid()
    requires forall job :: job in db.jobs ==> job.id != id
    modifies db`jobs
    ensures db.Valid()
    ensures r.Rejected? <==> !IsValidName(command.name)
    ensures r.Rejected? ==> db.jobs == old(db.jobs) && r.error.message == ValidationErrorMessage
    ensures r.Rejected? ==> r.error.errors == map["Name" := [NameMessage]]
    ensures r.Handled? ==> r.result == Ok
    ensures r.Handled? ==> ApplicationDbContext.EnqueuedOne(old(db.jobs), db.jobs, id, JobAction.DeleteDnsRecord,
                                                            command.name, now)
    ensures r.Handled? ==> fresh(db.jobs[|old(db.jobs)|])
  {
    var decision := Decide(command);
    if decision.Reject? {
      return Rejected(decision.error);
    }
    var result := Handle(db, command, id, now);
    r := Handled(result);
  }
}

/** The Create DNS record command: its validator, its handler, and the
    command as sent through the validation stage. */
module CreateDnsRecord {
  import opened Wrappers
  import opened Jobs
  import opened Persistence
  import opened ValidationBehavior
  import opened DnsRules
  import opened DnsRecordData

  datatype CreateDnsRecordCommand = CreateDnsRecordCommand(name: string, ipAddress: string)

  /** The validator: the Name rule and the IpAddress rule. */
  function Validator(command: CreateDnsRecordCommand, ipParses: string -> bool): (fs: seq<ValidationFailure>)
    ensures fs == [] <==> IsValidName(command.name) && ipParses(command.ipAddress)
  {
    NameAndAddressFailures(command.name, command.ipAddress, ipParses)
  }

  /** The handler: enqueues one Create job whose metadata is the encoded
      name and address; it does not touch the DNS records. */
  method Handle(db: ApplicationDbContext, command: CreateDnsRecordCommand, id: JobId, now: Timestamp)
    returns (r: Result)
    requires db.Valid()
    requires forall job :: job in db.jobs ==> job.id != id
    modifies db`jobs
    ensures db.Valid() && r == Ok
    ensures ApplicationDbContext.EnqueuedOne(old(db.jobs), db.jobs, id, JobAction.CreateDnsRecord,
                                             Encode(DnsRecordData(command.name, command.ipAddress)), now)
    ensures fresh(db.jobs[|old(db.jobs)|])
  {
    var dnsRecord := DnsRecordData(command.name, command.ipAddress);
    db.AddJob(id, JobAction.CreateDnsRecord, Encode(dnsRecord), now);
    r := Ok;
  }

  /** The validation stage applied to the command alone: it proceeds exactly
      when both fields are valid, and otherwise lists each failing field
      with its one message. */
  function Decide(command: CreateDnsRecordCommand, ipParses: string -> bool): (d: Decision)
    ensures d.Proceed? <==> IsValidName(command.name) && ipParses(command.ipAddress)
    ensures d.Reject? ==> d.error.message == ValidationErrorMessage
    ensures d.Reject? ==> forall p :: p in d.error.errors ==> p == "Name" || p == "IpAddress"
    ensures d.Reject? ==> ("Name" in d.error.errors <==> !IsValidName(command.name))
    ensures d.Reject? && "Name" in d.error.errors ==> d.error.errors["Name"] == [NameMessage]
    ensures d.Reject? ==> ("IpAddress" in d.error.errors <==> !ipParses(command.ipAddress))
    ensures d.Reject? && "IpAddress" in d.error.errors ==> d.error.errors["IpAddress"] == [IpAddressMessage]
  {
    var validator := (c: CreateDnsRecordCommand) => Validator(c, ipParses);
    SingleValidatorGate(validator, command);
    NameAndAddressGrouping(command.name, command.ipAddress, ipParses);
    Gate([validator], command)
  }

  /** The command sent through the validation stage: on any failure the
      handler does not run, no job is enqueued, and the single validation
      error lists each failing field with its message. */
  method Send(db: ApplicationDbContext, command: CreateDnsRecordCommand, ipParses: string -> bool,
              id: JobId, now: Timestamp)
    returns (r: Response<Result>)
    requires db.Valid()
    requires forall job :: job in db.jobs ==> job.id != id
    modifies db`jobs
    ensures db.Valid()
    ensures r.Rejected? <==> !IsValidName(command.name) || !ipParses(command.ipAddress)
    ensures r.Rejected? ==> db.jobs == old(db.jobs) && r.error.message == ValidationErrorMessage
    ensures r.Rejected? ==> forall p :: p in r.error.errors ==> p == "Name" || p == "IpAddress"
    ensures r.Rejected? ==> ("Name" in r.error.errors <==> !IsValidName(command.name))
    ensures r.Rejected? && "Name" in r.error.errors ==> r.error.errors["Name"] == [NameMessage]
    ensures r.Rejected? ==> ("IpAddress" in r.error.errors <==> !ipParses(command.ipAddress))
    ensures r.Rejected? && "IpAddress" in r.error.errors ==> r.error.errors["IpAddress"] == [IpAddressMessage]
    ensures r.Handled? ==> r.result == Ok
    ensures r.Handled? ==> ApplicationDbContext.EnqueuedOne(old(db.jobs), db.jobs, id, JobAction.CreateDnsRecord,
                                                            Encode(DnsRecordData(command.name, command.ipAddress)), now)
    ensures r.Handled? ==> fresh(db.jobs[|old(db.jobs)|])
  {
    var decision := Decide(command, ipParses);
    if decision.Reject? {
      return Rejected(decision.error);
    }
    var result := Handle(db, command, id, now);
    r := Handled(result);
  }
}

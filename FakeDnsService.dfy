/** The simulated DNS provider: create, update and delete on the record
    table, each checking that the name is absent or present first. The
    pure functions state each operation's outcome and resulting table; the
    methods perform it in place on the database context. */
module FakeDnsService {
  import opened Wrappers
  import opened Persistence

  const AlreadyExists: string := "DNS record already exists."
  const DoesNotExist: string := "DNS record does not exist."

  /** The outcome of one provider operation and the record table after it. */
  datatype ProviderStep = ProviderStep(result: Result, records: map<string, string>)

  /** Create: fails on a present name and leaves the table as it was;
      otherwise adds exactly the entry `name -> ipAddress`. */
  function CreateRecord(records: map<string, string>, name: string, ipAddress: string): (p: ProviderStep)
    ensures p.result.Ok? <==> name !in records
    ensures p.result.Fail? ==> p.result.message == AlreadyExists && p.records == records
    ensures p.result.Ok? ==> p.records.Keys == records.Keys + {name} && p.records[name] == ipAddress
    ensures forall k :: k in records ==> k in p.records && p.records[k] == records[k]
  {
    if name in records then ProviderStep(Fail(AlreadyExists), records)
    else ProviderStep(Ok, records[name := ipAddress])
  }

  /** Update: fails on an absent name and changes nothing; otherwise
      replaces only that entry's address. */
  function UpdateRecord(records: map<string, string>, name: string, ipAddress: string): (p: ProviderStep)
    ensures p.result.Ok? <==> name in records
    ensures p.result.Fail? ==> p.result.message == DoesNotExist && p.records == records
    ensures p.records.Keys == records.Keys
    ensures p.result.Ok? ==> p.records[name] == ipAddress
    ensures forall k :: k in records && k != name ==> p.records[k] == records[k]
  {
    if name !in records then ProviderStep(Fail(DoesNotExist), records)
    else ProviderStep(Ok, records[name := ipAddress])
  }

  /** Delete: fails on an absent name and changes nothing; otherwise
      removes exactly that entry. */
  function DeleteRecord(records: map<string, string>, name: string): (p: ProviderStep)
    ensures p.result.Ok? <==> name in records
    ensures p.result.Fail? ==> p.result.message == DoesNotExist && p.records == records
    ensures p.records.Keys == records.Keys - {name}
    ensures forall k :: k in p.records ==> p.records[k] == records[k]
  {
    if name !in records then ProviderStep(Fail(DoesNotExist), records)
    else ProviderStep(Ok, records - {name})
  }

  /** Deleting a record just created restores the table. */
  lemma {:induction false} DeleteUndoesCreate(records: map<string, string>, name: string, ipAddress: string)
    requires name !in records
    ensures var c := CreateRecord(records, name, ipAddress);
            c.result.Ok? && DeleteRecord(c.records, name) == ProviderStep(Ok, records)
  {
    var c := CreateRecord(records, name, ipAddress);
    assert c.records - {name} == records;
  }

  /** Creating a record that was just deleted, with its old address,
      restores the table. */
  lemma {:induction false} CreateUndoesDelete(records: map<string, string>, name: string)
    requires name in records
    ensures var d := DeleteRecord(records, name);
            d.result.Ok? && CreateRecord(d.records, name, records[name]) == ProviderStep(Ok, records)
  {
    var d := DeleteRecord(records, name);
    assert d.records[name := records[name]] == records;
  }

  /** A second create of the same name always fails: names stay unique. */
  lemma SecondCreateFails(records: map<string, string>, name: string, ip1: string, ip2: string)
    ensures CreateRecord(CreateRecord(records, name, ip1).records, name, ip2).result == Fail(AlreadyExists)
  {
  }

  /** Create against the database context, in place. */
  method CreateDnsRecord(db: ApplicationDbContext, name: string, ipAddress: string) returns (r: Result)
    modifies db`dnsRecords
    ensures ProviderStep(r, db.dnsRecords) == CreateRecord(old(db.dnsRecords), name, ipAddress)
  {
    if name in db.dnsRecords {
      return Fail(AlreadyExists);
    }
    db.dnsRecords := db.dnsRecords[name := ipAddress];
    r := Ok;
  }

  /** Update against the database context, in place. */
  method UpdateDnsRecord(db: ApplicationDbContext, name: string, ipAddress: string) returns (r: Result)
    modifies db`dnsRecords
    ensures ProviderStep(r, db.dnsRecords) == UpdateRecord(old(db.dnsRecords), name, ipAddress)
  {
    if name !in db.dnsRecords {
      return Fail(DoesNotExist);
    }
    db.dnsRecords := db.dnsRecords[name := ipAddress];
    r := Ok;
  }

  /** Delete against the database context, in place. */
  method DeleteDnsRecord(db: ApplicationDbContext, name: string) returns (r: Result)
    modifies db`dnsRecords
    ensures ProviderStep(r, db.dnsRecords) == DeleteRecord(old(db.dnsRecords), name)
  {
    if name !in db.dnsRecords {
      return Fail(DoesNotExist);
    }
    db.dnsRecords := db.dnsRecords - {name};
    r := Ok;
  }
}

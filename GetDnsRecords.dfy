/** The DNS record listing: every stored record, ordered by name. */
module GetDnsRecords {
  import opened Ordering
  import opened Persistence

  datatype GetDnsRecordsResultItem = GetDnsRecordsResultItem(name: string, ipAddress: string)

  /** The item of each named record, in the order of `names`. */
  function Project(records: map<string, string>, names: seq<string>): (items: seq<GetDnsRecordsResultItem>)
    requires forall i :: 0 <= i < |names| ==> names[i] in records
    ensures |items| == |names|
    ensures forall i :: 0 <= i < |names| ==> items[i] == GetDnsRecordsResultItem(names[i], records[names[i]])
  {
    if names == [] then []
    else [GetDnsRecordsResultItem(names[0], records[names[0]])] + Project(records, names[1..])
  }

  /** Some item carries the name `n`. */
  predicate Listed(items: seq<GetDnsRecordsResultItem>, n: string)
  {
    exists i :: 0 <= i < |items| && items[i].name == n
  }

  /** Listing every stored name, each once and in ascending order, lists
      every stored record once, in ascending order of name. */
  lemma ProjectListsAll(records: map<string, string>, names: seq<string>)
    requires forall i :: 0 <= i < |names| ==> names[i] in records
    requires forall n :: n in records ==> n in names
    requires forall i, j :: 0 <= i < j < |names| ==> StrLess(names[i], names[j])
    ensures forall i :: 0 <= i < |Project(records, names)| ==>
              var item := Project(records, names)[i];
              item.name in records && records[item.name] == item.ipAddress
    ensures forall n :: n in records ==> Listed(Project(records, names), n)
    ensures forall i, j :: 0 <= i < j < |Project(records, names)| ==>
              StrLess(Project(records, names)[i].name, Project(records, names)[j].name)
  {
    var items := Project(records, names);
    forall n | n in records ensures Listed(items, n) {
      var i :| 0 <= i < |names| && names[i] == n;
      assert items[i].name == n;
    }
    forall i, j | 0 <= i < j < |items| ensures StrLess(items[i].name, items[j].name) {
      assert items[i].name == names[i] && items[j].name == names[j];
    }
  }

  /** The query: one item per stored record with the record's own name and
      address, in strictly ascending ordinal order of name. Nothing is
      written. */
  function Handle(db: ApplicationDbContext): (items: seq<GetDnsRecordsResultItem>)
    reads db
    ensures |items| == |db.dnsRecords|
    ensures forall i :: 0 <= i < |items| ==>
              items[i].name in db.dnsRecords && db.dnsRecords[items[i].name] == items[i].ipAddress
    ensures forall n :: n in db.dnsRecords ==> Listed(items, n)
    ensures forall i, j :: 0 <= i < j < |items| ==> StrLess(items[i].name, items[j].name)
  {
    var records := db.dnsRecords;
    var names := SortedNames(records.Keys);
    assert |records.Keys| == |records|;
    ProjectListsAll(records, names);
    Project(records, names)
  }
}

# MillerService job queue, modelled in Dafny

MillerService manages DNS records through deferred jobs. A request to create,
update or delete a record passes a validation stage. Then its handler stores a
`Job` in state `Created` and returns at once. A background worker wakes up
periodically. On each tick it does four things:

- takes the `Created` jobs oldest first;
- marks each one `InProgress`;
- executes it against a simulated DNS provider;
- records `Completed` or `Failed` with the provider's message.

After processing, the tick sweeps out finished jobs created at least five
minutes earlier. Two read-only queries list the jobs (with a readable
description and state label) and the stored records (ordered by name).

The model follows the program's own structure, one Dafny module per concern:

| module | models |
|---|---|
| `Wrappers` | nullable values and the `Ok`/`Fail(message)` result |
| `Ordering` | one admissible order for `OrderBy(x => x.Created)` (ties keep table order); the ordinal string order and the sorted enumeration of a set of names used for `OrderBy(x => x.Name)` |
| `Jobs` | the `Job` entity, a class whose `state` and `failureReason` are mutable and whose other fields are constants; its forward-only lifecycle |
| `Persistence` | the database context: a class holding the job table (`seq<Job>`) and the record table (`map<string, string>`, name to address) |
| `DnsRecordData` | the JSON-shaped payload of Create and Update jobs, with its encoder and decoder |
| `FakeDnsService` | the provider's create, update and delete, both as pure specification functions and as methods updating the record table in place |
| `ValidationBehavior` | the validation stage: grouping of failures by property and the decision to run the handler or reject |
| `DnsRules` | the name pattern written out as a predicate, and the Name and IpAddress rules |
| `CreateDnsRecord`, `UpdateDnsRecord`, `DeleteDnsRecord` | each command's validator, its handler, and the command sent through the validation stage |
| `GetJobs`, `GetDnsRecords` | the two queries |
| `JobService` | the worker tick |

The worker tick is imperative, as in the source. `RunPending` is the `foreach`
loop. It mutates the selected `Job` objects and the record table in place. It
is proved against `RunJobs`, a functional specification of a batch run. Its
loop invariant ties the recorded statuses of the selected jobs to `Expected`,
the statuses a run prescribes.

Undecodable metadata throws inside the loop. That exception is caught by the
tick's `try`, so the rest of the batch and the sweep are skipped. The model
makes this the `aborted` flag of a run and the `Aborted` outcome of a tick,
and the job being processed stays `InProgress`.

The name pattern `^(?!-)(?:[a-z0-9-]{1,63}|xn--[a-z0-9]{1,59})$` is applied as
the .NET engine applies it: `$` also matches just before a final line feed.
So `"abc\n"` passes the validators. `DnsRules.IsValidName` states the whole
pattern over every input: 1 to 63 characters from `[a-z0-9-]`, not starting
with '-', optionally followed by one line feed.

## Model

| member | source | states |
|---|---|---|
| Jobs.Job.constructor | src/Domain/Jobs/Entities/Job.cs:8-39 | a new job is `Created` with no failure reason and carries the given identifier, action, metadata and creation time, which are constants and never change afterwards |
| Jobs.ReachableTransitive | src/Infrastructure/Services/JobService.cs:76-117 | forward-only lifecycle moves compose, so the states a job passes through over several ticks only move forward |
| Jobs.ReachableIsForwardOnly | src/Infrastructure/Services/JobService.cs:76-117 | no state other than `Created` leads back to `Created`; `Completed` and `Failed` are never left |
| Jobs.ByCreated | src/Application/Jobs/GetJobs.cs:31 | the jobs in ascending order of creation time, as a permutation of the table |
| Ordering.SortByKey | src/Infrastructure/Services/JobService.cs:71 | one admissible order for `OrderBy` (ties keep table order): the result is sorted by the key and is a permutation of the input |
| Ordering.StrLessEqTotal | src/Application/Jobs/Dns/GetDnsRecords.cs:28 | any two names are comparable in the ordinal order used for the listing |
| Ordering.StrLessEqAntisymmetric | src/Application/Jobs/Dns/GetDnsRecords.cs:28 | two names each ordered before the other are equal |
| Ordering.StrLessEqTransitive | src/Application/Jobs/Dns/GetDnsRecords.cs:28 | the ordinal order is transitive |
| Ordering.LeastUnique | src/Application/Jobs/Dns/GetDnsRecords.cs:28 | a set of names has at most one least name, so the listing order is determined |
| Ordering.SortedNames | src/Application/Jobs/Dns/GetDnsRecords.cs:28 | every name of the set exactly once, in strictly ascending ordinal order |
| Persistence.ApplicationDbContext.AddJob | src/Application/Jobs/Dns/CreateDnsRecord.cs:64-71 | given an identifier no stored job has (as `Guid.NewGuid()` provides), the job table gains exactly one new job at its end, `Created`, without a failure reason, with the given fields; earlier jobs are kept and the table invariant, including unique identifiers, holds |
| DnsRecordData.ReadEscaped | src/Application/Jobs/Dns/Models/DnsRecordData.cs:17-30 | reading an escaped string value back yields the value and leaves the text after its closing quote untouched |
| DnsRecordData.RoundTrip | src/Application/Jobs/Dns/Models/DnsRecordData.cs:17-30 | decoding the stored metadata of a payload yields that payload |
| DnsRecordData.Encode | src/Application/Jobs/Dns/Models/DnsRecordData.cs:17-20 | the stored metadata of a payload; `RoundTrip` shows it decodes back to that payload |
| DnsRecordData.Decode | src/Application/Jobs/Dns/Models/DnsRecordData.cs:27-30 | the payload read from metadata, or nothing when it does not parse; `DecodeCanonical` shows it accepts only what `Encode` writes |
| DnsRecordData.ReadStringCanonical | src/Application/Jobs/Dns/Models/DnsRecordData.cs:27-30 | whatever the string reader accepts is an escaped value followed by its closing quote |
| DnsRecordData.DecodeCanonical | src/Application/Jobs/Dns/Models/DnsRecordData.cs:17-30 | metadata that decodes is exactly the encoding of the decoded payload, so `Encode` and `Decode` are inverse on stored metadata |
| DnsRecordData.EncodeInjective | src/Application/Jobs/Dns/Models/DnsRecordData.cs:17-20 | distinct payloads are stored as distinct metadata |
| FakeDnsService.CreateRecord | src/Infrastructure/Services/FakeDnsService.cs:23-36 | create fails with "DNS record already exists." exactly when the name is present, leaving the table unchanged; otherwise it adds exactly `name -> ipAddress` and keeps every other entry |
| FakeDnsService.UpdateRecord | src/Infrastructure/Services/FakeDnsService.cs:49-57 | update fails with "DNS record does not exist." exactly when the name is absent, changing nothing; otherwise only that entry's address changes |
| FakeDnsService.DeleteRecord | src/Infrastructure/Services/FakeDnsService.cs:70-78 | delete fails with "DNS record does not exist." exactly when the name is absent, changing nothing; otherwise exactly that entry is removed |
| FakeDnsService.DeleteUndoesCreate | src/Infrastructure/Services/FakeDnsService.cs:14-79 | deleting a record just created restores the table |
| FakeDnsService.CreateUndoesDelete | src/Infrastructure/Services/FakeDnsService.cs:14-79 | re-creating a record just deleted, with its old address, restores the table |
| FakeDnsService.SecondCreateFails | src/Infrastructure/Services/FakeDnsService.cs:23-25 | a second create of the same name fails, so names stay unique |
| FakeDnsService.CreateDnsRecord | src/Infrastructure/Services/FakeDnsService.cs:14-37 | the in-place create leaves the result and record table that `CreateRecord` prescribes |
| FakeDnsService.UpdateDnsRecord | src/Infrastructure/Services/FakeDnsService.cs:40-58 | the in-place update leaves the result and record table that `UpdateRecord` prescribes |
| FakeDnsService.DeleteDnsRecord | src/Infrastructure/Services/FakeDnsService.cs:61-79 | the in-place delete leaves the result and record table that `DeleteRecord` prescribes |
| ValidationBehavior.MessagesForUnreported | src/Application/Validation/ValidationBehavior.cs:50-53 | a property nobody reported has no messages |
| ValidationBehavior.GroupByProperty | src/Application/Validation/ValidationBehavior.cs:50-53 | the keys are exactly the reported property names, and each maps to all of its messages in report order (never an empty list) |
| ValidationBehavior.WithErrorsKeepsFailures | src/Application/Validation/ValidationBehavior.cs:50-51 | dropping the validators that reported nothing loses no failure |
| ValidationBehavior.FlattenEmpty | src/Application/Validation/ValidationBehavior.cs:50-51 | there are no failures exactly when every validator reported none |
| ValidationBehavior.Validate | src/Application/Validation/ValidationBehavior.cs:39-56 | the dictionary returned holds exactly the reported properties, each with all of its messages |
| ValidationBehavior.Gate | src/Application/Validation/ValidationBehavior.cs:24-37 | the handler runs exactly when every validator reports nothing (including when there are none); otherwise one validation error with the fixed message and the non-empty grouped failures is returned |
| ValidationBehavior.SingleValidator | src/Application/Validation/ValidationBehavior.cs:42-51 | with one validator the failures are exactly that validator's |
| ValidationBehavior.SingleValidatorGate | src/Application/Validation/ValidationBehavior.cs:24-56 | with one validator the stage proceeds when it reports nothing, and otherwise rejects with its failures grouped by property |
| DnsRules.IsValidName | src/Application/Jobs/Dns/CreateDnsRecord.cs:44 | over every input: valid exactly when the text is non-empty, does not start with '-', and is 1 to 63 characters from `[a-z0-9-]`, optionally followed by one line feed |
| DnsRules.PunycodeIsPlain | src/Application/Jobs/Dns/CreateDnsRecord.cs:44 | every label of the `xn--` alternative already matches the first alternative |
| DnsRules.ValidNameCharacterization | src/Application/Jobs/Dns/CreateDnsRecord.cs:44 | without a final line feed a name is valid exactly when it has 1 to 63 characters from `[a-z0-9-]` and does not start with '-' |
| DnsRules.TrailingLineFeedCharacterization | src/Application/Jobs/Dns/CreateDnsRecord.cs:44 | a name followed by one line feed is valid exactly when the name is |
| DnsRules.NameExamples | src/Application/Jobs/Dns/CreateDnsRecord.cs:44 | "", "-a", "ABC" and "abc\n\n" are invalid; "a-", "a--b", "xn--abc" and "abc\n" are valid |
| DnsRules.NameRule | src/Application/Jobs/Dns/CreateDnsRecord.cs:30-35 | an absent or non-matching name gives exactly one failure, "'Name' must be a valid name." on "Name"; a valid one gives none |
| DnsRules.IpAddressRule | src/Application/Jobs/Dns/CreateDnsRecord.cs:36-41 | an absent or unparseable address gives exactly one failure, "'IpAddress' must be a valid IP address." on "IpAddress"; a parseable one gives none |
| DnsRules.NameAndAddressFailures | src/Application/Jobs/Dns/CreateDnsRecord.cs:30-41 | both rules run: "Name" is reported exactly when the name is invalid, "IpAddress" exactly when the address does not parse, both together when both fail, and nothing else |
| DnsRules.NameAndAddressGrouping | src/Application/Jobs/Dns/UpdateDnsRecord.cs:30-41 | grouped, each failing field of a Create or Update command has exactly its one message and no other key appears |
| DnsRules.NameGrouping | src/Application/Jobs/Dns/DeleteDnsRecord.cs:27-32 | grouped, a Delete command's failures are `{"Name": [message]}` for an invalid name and empty otherwise |
| CreateDnsRecord.Validator | src/Application/Jobs/Dns/CreateDnsRecord.cs:28-45 | the validator reports nothing exactly when the name is valid and the address parses |
| CreateDnsRecord.Handle | src/Application/Jobs/Dns/CreateDnsRecord.cs:60-74 | given a fresh identifier, appends exactly one `Created` CreateDnsRecord job whose metadata is the encoded name and address, keeps the table invariant, does not touch the records, and returns `Ok` |
| CreateDnsRecord.Decide | src/Application/Validation/ValidationBehavior.cs:24-37 | the stage proceeds exactly when name and address are valid; a rejection lists exactly the failing fields, each with its one message |
| CreateDnsRecord.Send | src/Application/Jobs/Dns/CreateDnsRecord.cs:28-74 | a rejected command enqueues nothing and returns the grouped failures; an accepted one enqueues exactly one Create job and returns `Ok` |
| UpdateDnsRecord.Validator | src/Application/Jobs/Dns/UpdateDnsRecord.cs:28-45 | the validator reports nothing exactly when the name is valid and the address parses |
| UpdateDnsRecord.Handle | src/Application/Jobs/Dns/UpdateDnsRecord.cs:60-74 | given a fresh identifier, appends exactly one `Created` UpdateDnsRecord job whose metadata is the encoded name and address, keeps the table invariant, does not touch the records, and returns `Ok` |
| UpdateDnsRecord.Decide | src/Application/Validation/ValidationBehavior.cs:24-37 | the stage proceeds exactly when name and address are valid; a rejection lists exactly the failing fields, each with its one message |
| UpdateDnsRecord.Send | src/Application/Jobs/Dns/UpdateDnsRecord.cs:28-74 | a rejected command enqueues nothing and returns the grouped failures; an accepted one enqueues exactly one Update job and returns `Ok` |
| DeleteDnsRecord.Validator | src/Application/Jobs/Dns/DeleteDnsRecord.cs:25-33 | only the name is checked: nothing is reported exactly when it is valid, and every failure is on "Name" |
| DeleteDnsRecord.Handle | src/Application/Jobs/Dns/DeleteDnsRecord.cs:51-63 | given a fresh identifier, appends exactly one `Created` DeleteDnsRecord job whose metadata is the bare name, keeps the table invariant, and returns `Ok` |
| DeleteDnsRecord.Decide | src/Application/Validation/ValidationBehavior.cs:24-37 | the stage proceeds exactly when the name is valid, and otherwise rejects with `{"Name": ["'Name' must be a valid name."]}` |
| DeleteDnsRecord.Send | src/Application/Jobs/Dns/DeleteDnsRecord.cs:25-63 | a rejected command enqueues nothing and returns the one Name failure; an accepted one enqueues exactly one Delete job and returns `Ok` |
| GetJobs.Describe | src/Application/Jobs/GetJobs.cs:37-62 | a job cannot be described exactly when it is a Create or Update job whose metadata does not decode |
| GetJobs.Project | src/Application/Jobs/GetJobs.cs:34-75 | one item per job in the same order, with the job's identifier, its description and its state label; no items when some job cannot be described |
| GetJobs.Handle | src/Application/Jobs/GetJobs.cs:29-78 | the listing has one item per job, in ascending order of creation time, each with that job's identifier, description and state label; it reads the table only |
| GetJobs.DescribeCreate | src/Application/Jobs/GetJobs.cs:39-44 | an enqueued Create job reads "Create DNS record '<name>' with IP address '<address>'" |
| GetJobs.DescribeUpdate | src/Application/Jobs/GetJobs.cs:46-51 | an enqueued Update job reads "Update DNS record '<name>' with IP address '<address>'" |
| GetJobs.StateLabel | src/Application/Jobs/GetJobs.cs:64-71 | a label starts with "Failed: " exactly when the job has failed; `StateLabelRoundTrip` shows every label reads back to its state and reason |
| GetJobs.StateLabelRoundTrip | src/Application/Jobs/GetJobs.cs:64-71 | every state label reads back to its state, and a failed job's label to its reason, so the labels tell the states apart |
| GetDnsRecords.Project | src/Application/Jobs/Dns/GetDnsRecords.cs:31-32 | one item per given name, in order, carrying that name and its stored address |
| GetDnsRecords.ProjectListsAll | src/Application/Jobs/Dns/GetDnsRecords.cs:28-32 | projecting the sorted names lists every record, each with its own address, in strictly ascending order of name |
| GetDnsRecords.Handle | src/Application/Jobs/Dns/GetDnsRecords.cs:26-35 | the listing has one item per stored record, each with the record's own name and address, in strictly ascending ordinal order of name; it reads the table only |
| JobService.CreatedJobs | src/Infrastructure/Services/JobService.cs:69-70 | exactly the jobs in state `Created`, with no repetitions when the table has none |
| JobService.SelectPending | src/Infrastructure/Services/JobService.cs:69-72 | exactly the `Created` jobs, in ascending order of creation time, each once |
| JobService.ExecuteJob | src/Infrastructure/Services/JobService.cs:79-102 | executing a job faults exactly when it is a Create or Update job whose metadata does not decode; a Delete job passes its metadata as the name |
| JobService.RunJobs | src/Infrastructure/Services/JobService.cs:74-105 | a batch runs every job unless it stops at one whose payload does not decode, in which case it has executed exactly the jobs before it |
| JobService.AbortIsFinal | src/Infrastructure/Services/JobService.cs:74-105 | once a batch has stopped, the jobs after the stopping point change nothing |
| JobService.DecodableJobsNeverAbort | src/Infrastructure/Services/JobService.cs:84-91 | a batch of jobs as the handlers enqueue them, every Create and Update payload an encoded record, never stops early |
| JobService.ExecuteEnqueuedCreate | src/Infrastructure/Services/JobService.cs:82-87 | a Create job as the handler enqueues it creates exactly its own name and address |
| JobService.ExecuteEnqueuedUpdate | src/Infrastructure/Services/JobService.cs:88-93 | an Update job as the handler enqueues it updates exactly its own name and address |
| JobService.SetJobState | src/Infrastructure/Services/JobService.cs:108-121 | success makes the job `Completed` and keeps its failure reason; failure makes it `Failed` with the failure's message as reason |
| JobService.Dispatch | src/Infrastructure/Services/JobService.cs:79-102 | the switch on the action: faults exactly when `ExecuteJob` does, leaving the records unchanged; otherwise the result and records are the provider step `ExecuteJob` prescribes |
| JobService.ProcessJob | src/Infrastructure/Services/JobService.cs:76-104 | faults exactly when `ExecuteJob` does; after a fault the job is `InProgress` with its reason unchanged and the records are untouched; otherwise the records are the provider step `ExecuteJob` prescribes and the job's state and reason are `StateAfter` and `ReasonAfter` of the result |
| JobService.Expected | src/Infrastructure/Services/JobService.cs:74-105 | in every status a run prescribes, a job carries a failure reason exactly when it has failed |
| JobService.AdvancedIsConsistent | src/Infrastructure/Services/JobService.cs:108-118 | after a run every selected job carries a failure reason exactly when it has failed |
| JobService.AdvancedStates | src/Infrastructure/Services/JobService.cs:74-105 | after a run every executed job is `Completed` or `Failed`; a complete run finishes all selected jobs, an aborted one leaves its stopping job `InProgress` and the later ones `Created` |
| JobService.RunStep | src/Infrastructure/Services/JobService.cs:76-104 | one pass of the loop: a decode fault ends the batch with the records untouched and every selected job as the run prescribes; otherwise the run and the selected jobs' statuses advance by exactly this job's outcome |
| JobService.RunPending | src/Infrastructure/Services/JobService.cs:74-105 | the loop leaves the record table, the abort flag and each selected job's status exactly as `RunJobs` prescribes, and every selected job consistent |
| JobService.ProcessPendingJobs | src/Infrastructure/Services/JobService.cs:67-106 | runs exactly the `Created` jobs oldest first as `RunJobs` prescribes; no job is added or removed, unselected jobs are untouched, states only move forward, the invariant holds |
| JobService.Expired | src/Infrastructure/Services/JobService.cs:128 | a job is swept when it has left `Created` and was created at or before the limit; `Retained` keeps exactly the jobs that are not |
| JobService.Retained | src/Infrastructure/Services/JobService.cs:127-129 | a job is kept exactly when it is still `Created` or was created after the limit (a job created at the limit is removed); a table without repetitions stays without |
| JobService.RemovePastJobs | src/Infrastructure/Services/JobService.cs:123-134 | the job table becomes exactly the jobs retained for the limit `now` minus five minutes |
| JobService.ProcessJobs | src/Infrastructure/Services/JobService.cs:45-65 | one tick: the pending jobs run as `RunJobs` prescribes; a decode fault aborts the tick and skips the sweep, otherwise the sweep follows; the invariant holds and states only move forward |

## Left out

- Scheduling: the timer, the `SemaphoreSlim` that serialises ticks, `async void` and cancellation (src/Infrastructure/Services/JobService.cs:18-43). One tick is one sequential method, and two ticks never overlap.
- The provider's random delay (`Task.Delay`). It affects timing only.
- Persistence is in memory: `SaveChangesAsync`, change tracking and transactions are not modelled, and a save takes effect at once. The column length limits and migrations are left out. A failing database or a failing save is not modelled; the only exception modelled is a payload that does not decode.
- Clock and identifiers: `DateTime.Now` and `Guid.NewGuid()` are parameters (`now`, `id`). A new identifier is required to differ from every stored job's, which is what a fresh GUID gives with overwhelming probability; the probability itself is not modelled. The table invariant keeps identifiers unique, as the job table's primary key does. Timestamps are 100-nanosecond ticks in unbounded integers, so `now` minus five minutes never underflows.
- The JSON serializer is replaced by a concrete encoding of the same shape, `{"Name":"…","IpAddress":"…"}`, which escapes only '"' and '\'. The serializer's other escapes, its tolerance of whitespace and field order, and a `null` payload are not modelled. Every text the model's decoder rejects stands for a deserialization exception.
- `IPAddress.TryParse` is the parameter `ipParses`.
- The record listing uses ordinal character order. Database collation and case-insensitive comparison are not modelled. The validators admit only lower-case letters, digits, '-' and a final line feed.
- Ties: jobs created at the same time keep their table order. This is one of the orders an `OrderBy` on `Created` may return.
- GetJobs.Handle: the exception thrown when a Create or Update payload does not decode is modelled as the absent result `None`, without a message.
- Null command fields: commands carry plain strings. The Name and IpAddress rules take optional values, so their null branch is still modelled.
- The `default: throw new NotImplementedException()` branches: the enumerations are closed datatypes, so those branches cannot be reached.
- The API layer, the HTTP mapping of results, authorization, dependency-injection wiring and reflection are not part of this model.

# ContractDB: a verified model

ContractDB is a primary DNS server over a key-to-item store. Every stored item is published as one TXT record
whose owner name spells the item's key and whose character strings hold the item's JSON. Clients change items
with RFC 2136 UPDATEs; secondaries follow with AXFR and IXFR. This project models the path a write takes
(UPDATE, store, journal, transfer, secondary) and the codecs it rests on, and proves what that path promises.

The model has the program's own shape. `Handler`, `MemChangeLog`, `SampleStore` and the response `Message` are
classes whose methods are proved against specification functions on values (`Process`, `RecordIn`, `Since`,
`Stream`, `Respond`, `Signed`); the theorems are about those functions and about whole runs of them.

The five results everything else builds up to:

* **Replication converges** (`Replication.SecondaryConverges`, `BenignSecondaryConverges`). After any serialized run
  of UPDATEs that journals exactly, a secondary that holds the zone as it was at any earlier point and reads one TCP
  IXFR reply record by record ends with the current serial and exactly the current zone, wherever the messages were
  cut and whatever follows on the connection. `Server.Handler.ProcessUpdate` and `HandleIxfr` carry the same
  statement on the running server, through a ghost history of zones.
* **Exactly when it does** (`SecondariesExactly`, `ReplicationExactly`, `DeltaExactly`). For every run from any store, a
  secondary at any point of the run is served right at every later point if and only if each step is faithful: a
  condition on the store, the request and its store calls that can be told before the step, from the JSON alone.
* **Names** (`Names.RoundTripExactly`, `CollideExactly`). Which keys survive printing and parsing, and which two keys
  share an owner name, both as equivalences, over base32 written out in full.
* **The journal** (`Journal.JournalRefinesLog`, `InterleavedSound`). The capped journal is a window on an unbounded
  log, and stays sound when writers draw serials and record in any order.
* **UPDATE** (`Update.AcceptedExactly`, `AllOrNothing`, `Locks.LockHoldsExactly`). Which requests are carried out, that
  they change one key or nothing, and exactly how long the lock taken by insert-if-absent holds over whole runs.

## What the proofs found

Each of these is a behaviour of the code as written, kept in the model, with a proof of when the promise does hold.

* `itemName` prints a DNS-safe key starting with `k-` literally, while `parseKey` reads it as base32. No such key ever
  comes back (`ReservedNeverReturns`), and it can share its owner name with another key (`CollisionExample`: "HELLO"
  and "k-jbcuytcp"), in which case deleting one withdraws the record of both from every secondary
  (`SharedNameMisleads`). Three ordinary UPDATEs are enough to get there (`CollisionMisleads`).
* The comment at update.go:154 says the snapshot makes the journal delta exact. It is not exact when two spellings of
  one key carry different values in one UPDATE (`AliasesMislead`), nor when a stored `null` is overwritten or deleted
  (`OverwrittenNullMisleads`, `NullThenItemMisleads`). With the shared owner names above these are the only cases, in
  any store: `DeltaExactly` says when each of the three does harm, and `MisleadsExactly` that nothing else does.
* README.md:90 says the payload must be a JSON object. `json.Unmarshal` into a map also accepts `null`, giving an item
  that is stored and listed but reads as missing. So a lock taken with null does not hold (`NullDoesNotLock`), and any
  UPDATE that inserts null frees a lock without a deletion (`NullFreesLock`). A lock holds exactly as long as every
  request that lands on its key inserts, and first inserts an item that is not null (`LockHoldsExactly`): a condition
  on each request alone.
* A writer that draws a serial and records it after the journal has pruned past that serial leaves an entry that is
  never evicted: each one costs a serial of the window for good (`InterleavedWindow`). Up to 4096 of them, the order of
  recording leaves no trace exactly when there are none (`NoTraceExactly`); one more sends the pruning loop round all
  2^32 serials (`OneTooManyLate`).
* JSON goes into TXT strings without presentation escapes, so a value read over the wire meets its own value-dependent
  prerequisite exactly when its JSON has no backslash (`ReadBackExactly`, `ReadThenRequire`).
* Once serial 2^32-1 is the latest, the journal answers nobody (`JournalRefinesLog`): the loop guard in `Deltas` can
  no longer become false. The loop still ends, after at most 4097 lookups (`MemChangeLog.Deltas`).
* A dotted key whose last label is a configured index name is answered by the index, not by the key (`RoutedExactly`).
* A second signing pass changes the response exactly when the first pass ran, the primitive failed on every RRset, and
  either a denial or key record had been added or a later call succeeds (`SignTwiceExactly`). With a primitive that
  keeps failing these are exactly the negative and the apex responses (`FailingSignerStacks`, `NegativeAnswerStacks`).

## Modules

`Wrappers`, `Strings`, `Collections` and `Dns` hold vocabulary. `Base32`, `Names`, `Txt` and `Values` are the codecs.
`Records`, `Store`, `Journal`, `Batch` and `Update` are the parts of a write, `Transfer` the reply and its reader,
`Query` and `Dnssec` the read side. `Server` holds the handler's methods. `Replication` and `Locks` are about runs;
`Divergence` holds the requests on which promises fail.

Assumptions, stated as preconditions where they matter: UPDATEs are serialized (only the interleaved journal theorems
drop this); serials do not wrap during a run (`st.serial + |arrivals| <= MAX_UINT32`; single steps use true 32-bit
increments); the zone is lower case, as main.go:219 makes it; a store call may fail, and then changes nothing. Clocks
and failures are parameters. So are library functions, as fields of `Config`, `Codec` and `Signer`: JSON printing and
parsing, `dns.Len`, base64, `ParseFloat` and `FormatFloat`, and the signature primitive. The JSON of the status and of
the counters is a parameter, too.

## Model

| member | source | states |
|---|---|---|
| `Replication.SecondaryConverges` | transfer.go:36-77 | after any run that journalled exactly, one TCP IXFR reply brings a secondary holding any earlier zone of the run (or any older serial, whatever it holds) to the current serial and exactly the current zone |
| `Replication.BenignSecondaryConverges` | update.go:52-210 | the same after every run of UPDATEs that insert at one owner name, outside the reserved keys and never null, from a clean store |
| `Replication.ReplicationExactly` | update.go:154-204 | for every run, the journal rebuilds each later zone from each earlier one, for all pairs of points, if and only if every step journals exactly |
| `Replication.SecondariesExactly` | transfer.go:36-77 | for every run from any store, every secondary holding the zone of any point of the run is brought by every TCP IXFR reply of every later point to exactly that zone and serial, if and only if every step is faithful |
| `Replication.ServedExactly` | transfer.go:47-75 | a secondary at one state is served right by a later one if and only if what the journal answers, if it answers, rebuilds the zone |
| `Replication.UnjournalledServed` | transfer.go:70-74 | without a journal every reply is a full transfer and every secondary is served right |
| `Replication.OthersHere` | server.go:157-183 | the only other records at a key's owner name are those of its twin |
| `Replication.ReplicationFaithfully` | update.go:154-204 | for every run from any store, the journal rebuilds each later zone from each earlier one if and only if every step is faithful, which can be told before the step |
| `Replication.DeltaExactly` | update.go:183-204 | in any store, one journalled delta turns the old zone into the new one if and only if the write is faithful: every inserted JSON will be shown by the stored insert or by the one other key printed at that owner name, a stored null shows what one of the two will show, and any other old item does not show the JSON of that other key unless it is inserted again |
| `Replication.FaithfulExactly` | update.go:183-204 | this condition on JSON values is the condition on records: the delta takes no record from the other keys, and leaves or adds none that will not be shown |
| `Replication.DeltasConverge` | journal.go:50-65 | in an exact run an earlier serial is answered exactly when at most 4096 writes lie between (and the last serial is not reached), and the deltas, removals first, rebuild the last zone |
| `Replication.EveryReplyReadsBack` | transfer.go:47-75 | after any run at all, the reply to any serial up to the current one identifies itself as up to date, incremental or full, and reads back as exactly the journalled deltas or the listed items |
| `Replication.ReplyIsCurrent` | transfer.go:36-77 | the one-state form: with a coherent history behind the server, the reply ends at its zone and serial |
| `Replication.RunJournalled` | server.go:77-83 | every run whatever its UPDATEs keeps the journal a window on one log with one entry per serial and no SOA in any delta |
| `Replication.RunCoherent` | server.go:77-83 | in an exact run one sequence of zones, one per serial, stands behind every state |
| `Replication.StepJournalled` | update.go:160-204 | any UPDATE leaves the log alone or extends it by one delta, which leads from the old zone to the new exactly when the step is exact |
| `Replication.StepRebuildsExactly` | update.go:160-204 | the journal after one UPDATE rebuilds its zone from the one before if and only if that step is exact |
| `Replication.BenignStep` | update.go:52-210 | a benign UPDATE to a clean store is journalled exactly and keeps the store clean |
| `Replication.ReplayRebuilds` | transfer.go:149-162 | applying the log's deltas from one serial to another turns the one zone into the other |
| `Journal.JournalRefinesLog` | journal.go:22-65 | after any consecutive records the entries are exactly the last 4096, and a serial is answered exactly when it lies in the window, with that suffix of the full log |
| `Journal.WindowRecord` | journal.go:26-48 | recording the next serial keeps the window on the extended log, pruning exactly one entry at the cap |
| `Journal.WindowSince` | journal.go:50-65 | the answer of a windowed journal to any 32-bit serial |
| `Journal.PruneMeetsCap` | journal.go:43-47 | pruning upward from oldest meets the cap from any map, even across the wrap of the serial |
| `Journal.PruneKeepsEntries` | journal.go:43-47 | pruning only removes entries and changes none |
| `Journal.InterleavedSound` | journal.go:50-65 | with serials drawn and recorded by different writers in any order, an answer is one delta for each of since+1..latest, each by the writer that drew that serial |
| `Journal.InterleavedQuiescent` | server.go:77-83 | once all of at most 4096 writers have recorded, in whatever order, the journal answers as if they had recorded in order |
| `Journal.InterleavedWindow` | journal.go:39-65 | for any number of writers, once all have recorded and at most 4096 records came behind oldest, exactly which serials are answered: the window is shorter by one for each such record, and the answer is that suffix of the full log |
| `Journal.NoTraceExactly` | journal.go:26-48 | under the same conditions the journal equals the one recorded in order if and only if no record came behind oldest |
| `Journal.OneTooManyLate` | journal.go:43-47 | one more late record makes pruning go round all 32-bit serials |
| `Journal.MemChangeLog.constructor` | journal.go:22-24 | a journal starts empty just after its start serial and within the cap |
| `Journal.MemChangeLog.Record` | journal.go:26-48 | the fields afterwards are the recorded log, within the cap |
| `Journal.MemChangeLog.PruneToCap` | journal.go:43-47 | the pruning loop ends, within the cap, over wrapping serials |
| `Journal.MemChangeLog.Deltas` | journal.go:50-65 | every entry after the serial in order, or none if one is missing, in at most 4097 lookups even at latest = 2^32-1 |
| `Transfer.FramingRoundTrip` | transfer.go:144-162 | however an incremental stream is cut into messages and whatever follows it, the receiver recovers exactly the deltas and stops exactly at the closing SOA |
| `Transfer.FullRoundTrip` | transfer.go:163-204 | a full stream is recognised as one, empty or not, and read exactly to its end |
| `Transfer.DiffsRoundTrip` | transfer.go:149-162 | parsing consecutive difference sequences gives back each delta and leaves what follows untouched |
| `Transfer.StreamHolds` | transfer.go:144-207 | the messages of a transfer rejoin to its record stream, none is empty, and all keep both size limits |
| `Transfer.PageIsZone` | transfer.go:163-199 | the items of a full transfer are exactly the zone as a set of records |
| `Transfer.AxfrIsZone` | transfer.go:21-207 | who gets an AXFR reply, and that a receiver reading from SOA to SOA (section 2.2 of RFC 5936) ends with exactly the zone at the current serial |
| `Transfer.IxfrAnswers` | transfer.go:36-75 | for every request, UDP or TCP, at any serial: exactly which are refused, who gets a lone SOA at the current serial, and that no reader at an older serial takes itself for up to date |
| `Batch.BatchRRs` | transfer.go:216-234 | the loop computes the greedy batches |
| `Batch.BatchesSplit` | transfer.go:216-234 | the batches rejoin to the input, none is empty, each has at most 500 records and fits the cap unless it is a single record |
| `Batch.LimitsExactly` | transfer.go:221-228 | a record joins a non-empty message if and only if it holds fewer than 500 and 512 plus all lengths stays within the cap, the cap itself allowed; a lone record always fits |
| `Batch.BatchesOptimal` | transfer.go:216-234 | no contiguous split within the same limits uses fewer messages |
| `Server.Handler.constructor` | server.go:97-101 | a handler over a fresh journal is in step with its history |
| `Server.Handler.CommitWrite` | server.go:77-83 | the serial rises by one in 32 bits and the journal, if there is one, records the delta under it |
| `Server.Handler.EvalPrerequisites` | update.go:214-278 | the code of the first prerequisite that fails, or NOERROR |
| `Server.Handler.EvalPrerequisite` | update.go:215-275 | one prerequisite's code, with every store, syntax and zone error |
| `Server.Handler.CollectChanges` | update.go:83-115 | the first rejected record's code, or the deletions, the owners in order of first appearance and their strings |
| `Server.Handler.CollectWrites` | update.go:117-135 | each owner's decoded item, or the first error |
| `Server.Handler.PlanUpdate` | update.go:52-152 | what the request asks of the store, decided without changing anything |
| `Server.Handler.CarryOut` | update.go:154-204 | a failing store call changes nothing; otherwise store, serial and journal change as one whole write |
| `Server.Handler.RenderInserts` | update.go:196-203 | the renderings of all inserts in order, those without JSON left out |
| `Server.Handler.ProcessUpdate` | update.go:52-210 | response code and new state for every request; a handler in step with its history stays so under every faithful UPDATE, earlier zones untouched; and in a clean store every benign UPDATE is faithful and keeps it clean |
| `Server.Handler.HandleIxfr` | transfer.go:34-77 | the reply for every request: which are refused, that a UDP client and a client at or past the current serial get one SOA at the current serial, that a reader takes itself for up to date exactly when it is, and while in step that every eligible secondary is brought to the stored zone |
| `Server.Handler.AnswerIxfr` | transfer.go:36-77 | refusal, lone SOA at the current serial, replay or full transfer, in the code's order of tests |
| `Server.Handler.HandleAxfr` | transfer.go:21-32 | a full transfer is given exactly over TCP, for this zone, from an enumerable store; it keeps both message limits and, whatever follows on the connection, reads as exactly the stored zone at the current serial |
| `Server.Handler.StreamZone` | transfer.go:101-207 | SOA, body and SOA over the one ascending listing of the store |
| `Server.Handler.StreamItems` | transfer.go:163-199 | for every division of the store into pages, the messages equal the batches of the concatenated renderings |
| `Server.Handler.BufferPage` | transfer.go:168-189 | one page continues the batching from whatever the buffer held before it |
| `Server.Handler.GsiLookup` | server.go:334-363 | the answer of an index query, in every case |
| `Server.Handler.BuildResponse` | server.go:228-330 | the answer of a point query in every case, the apex, status, health, metrics and ns1 names included |
| `Server.Handler.MetricsAnswer` | server.go:265-270 | one TXT record per character string of the counters' JSON |
| `Update.AllOrNothing` | update.go:52-210 | any failure code leaves store, serial and journal alone; NOERROR with updates stores, at the one key all records name, the item decoded for the first inserted owner, or nothing, changes no other key, raises the serial by one and journals the old rendering out and the renderings of all decoded inserts in |
| `Update.AcceptedExactly` | update.go:52-181 | NOERROR if and only if the store is writable, the zone section is one IN/SOA question for the zone, every prerequisite holds (the name exists or not, or its record holds exactly the bytes named), and the records are all deletions or decodable insertions of one key with no store failure |
| `Update.MetExactly` | update.go:214-278 | a prerequisite passes if and only if it holds: the table of section 2.4 of RFC 2136 |
| `Update.UnmetCodes` | update.go:218-275 | what each prerequisite that does not hold is answered with: section 3.2 of RFC 2136 |
| `Update.UnmetAnswer` | update.go:68-70 | a request is answered with the code of its first prerequisite that does not hold |
| `Update.RecordsAnswer` | update.go:86-181 | otherwise with the code of its first rejected record, else of its first failing payload, else REFUSED for more than one key, else SERVFAIL for a store failure |
| `Update.FirstAnswers` | update.go:53-65 | and before all that with REFUSED or FORMERR for the store and the zone section |
| `Update.RecordExactly` | update.go:86-114 | what each update record comes to, by class and type: the four forms of deletion, the insertion, and every rejection |
| `Update.WriteCodes` | update.go:118-134 | REFUSED for an owner without a key, FORMERR for a payload that does not decode |
| `Update.InPacketOrder` | update.go:107-110 | owners, and the strings at each, are kept in packet order |
| `Update.PayloadRejoins` | update.go:107-126 | a value spread over several records at one owner arrives whole |
| `Update.SuccessInverts` | update.go:58-204 | what NOERROR tells: the prerequisites held, every record named the key written, and the new state is that write |
| `Update.AffectedIsOneKey` | update.go:137-149 | the one-key test leaves no second key among deletions and insertions |
| `Locks.LockHolds` | update.go:234-254 | in any run, between two successful insert-if-absent requests for a key some successful request on that key left it missing |
| `Locks.LockHoldsExactly` | update.go:170-181 | in any run, a key acquired at one point stays held through every state up to a later one if and only if every request that lands on it meanwhile, the acquisition included, inserts and the insert that is stored is not null |
| `Locks.LandsExactly` | update.go:130-181 | a request that succeeds on a key leaves it held if and only if its first insert decodes to an item that is not null |
| `Locks.HeldExcludes` | update.go:240-254 | nobody acquires a held key |
| `Locks.LockHoldsWithoutNull` | update.go:170-181 | when no request that lands on the key meanwhile stores null, that request is a later deletion of the key |
| `Locks.AcquireNeedsAbsence` | update.go:240-254 | a successful insert-if-absent, by either of the two prerequisites for absence, found the key missing |
| `Locks.SuccessIsTargeted` | update.go:154-181 | a successful request changes no key it does not name, and leaves its key stored exactly when it inserts |
| `Names.RoundTripExactly` | server.go:131-183 | parsing a printed key gives it back exactly for non-empty keys outside the reserved names |
| `Names.ReservedNeverReturns` | server.go:140-149 | a safe key starting with "k-" never comes back |
| `Names.CollideExactly` | server.go:157-183 | two keys share an owner name exactly when they are equal or one is the literal base32 form of the other |
| `Names.TwinExactly` | server.go:131-183 | a key shares its owner name with at most one other key, which can be computed from it |
| `Names.UnreservedInjective` | server.go:157-183 | distinct unreserved keys have distinct owner names |
| `Names.BaseFormAnySpelling` | server.go:140-150 | the base32 form in any letter case, padded or unpadded, names the same key |
| `Names.CaseInsensitive` | server.go:131-152 | any case variant of an owner name reaches the key once lower-cased, as every caller does |
| `Names.CollisionExample` | server.go:179-182 | "HELLO" and "k-jbcuytcp" have one owner name in every zone |
| `Names.ItemNameByScan` | server.go:157-183 | the scanning loops pick the form that `PrintedExactly` describes |
| `Names.PrintedExactly` | server.go:157-183 | told from the characters alone: a key is printed as it is if and only if it is made of a-z, 0-9, hyphens and dots, neither dot nor hyphen is at an end, no dot has a dot or hyphen beside it, and no 64 characters in a row lack a dot; otherwise in lower-case base32 |
| `Names.ParsedExactly` | server.go:131-151 | only names below the zone, in any letter case, have a key, and unless it starts with "k-" that is what stands before the zone |
| `Names.ParsedBase` | server.go:140-150 | otherwise the key is what the first label spells |
| `Base32.RoundTrip` | server.go:145-182 | every byte string survives standard base32 (section 6 of RFC 4648) |
| `Base32.DecodedLength` | server.go:145-149 | eight symbols carry at most five bytes, which is why a reserved key cannot return |
| `Base32.QuantumDecodesExactly` | server.go:146-149 | eight symbols decode if and only if 2, 4, 5, 7 or 8 of them stand before padding only, padding being allowed in the last eight alone |
| `Txt.ChunkBytes` | server.go:389-400 | the loop computes the chunks |
| `Txt.ChunksAreTheChunking` | server.go:389-400 | they are the one and only division that rejoins to the input with every part but the last full and none empty |
| `Txt.ChunkCount` | server.go:192 | an item takes exactly ceil(length / 255) character strings |
| `Txt.DecodeTxtStrings` | update.go:283-309 | the index-moving loop decodes every escape, or fails on a dangling backslash or a number over 255 |
| `Txt.TxtRoundTrip` | update.go:280-309 | decoding the presented form of any list of byte strings gives their concatenation (section 5.1 of RFC 1035) |
| `Txt.EscapesExactly` | update.go:287-306 | after any presented text, a backslash at the end and a number over 255 are refused, three digits stand for their byte, and a backslash before anything else for the next character |
| `Txt.ReadBackExactly` | server.go:186-197 | a value read over the wire equals the stored JSON if and only if that JSON has no backslash |
| `Records.RenderItem` | server.go:186-197 | an item's one TXT record, or the marshalling error |
| `Values.ReadWriteReadStable` | store.go:197-299 | for every readable tree the write back succeeds, reads the same, is stable from then on, and is the identity exactly on reversible trees |
| `Values.ReadThenWrite` | store.go:262-299 | writing back what was read stores the normal form (B to S, NS to L, BS to SS, NULL to true) |
| `Values.WriteThenRead` | store.go:197-299 | writing a value and reading it back succeeds if and only if every number parses, and gives the value with each float turned into the number its printed form spells |
| `Values.UnflattenExactly` | store.go:262-299 | writing fails if and only if the value has, at some depth, a part of a type the program cannot write |
| `Values.FlattenExactly` | store.go:197-258 | reading fails if and only if some number does not parse or some member is unknown |
| `Values.NormalReadsTheSame` | store.go:197-258 | reading the normal form succeeds exactly when reading the original does, with the same value |
| `Values.FixedExactly` | store.go:197-299 | normalising changes nothing exactly for trees of S, N, BOOL, NULL(true), SS, L, M and unknown members |
| `Store.SampleStore.Get` | sample.go:41-48 | a missing key and a stored null read alike |
| `Store.SampleStore.Put` | sample.go:50-55 | one key set, or nothing on failure |
| `Store.SampleStore.Remove` | sample.go:57-62 | one key gone, or nothing on failure |
| `Store.SampleStore.List` | sample.go:64-77 | every stored item exactly once in ascending key order |
| `Store.SampleStore.QueryIndex` | sample.go:79-98 | the listing filtered by attribute value, or an unknown-index error |
| `Store.SortStrings` | sample.go:70 | the same keys, strictly ascending |
| `Strings.LeqExactly` | sample.go:70 | the order is that of the first differing byte, a prefix coming first |
| `Strings.FoldsExactly` | transfer.go:24 | names fold together exactly when they differ at most in the case of ASCII letters |
| `Store.ListingUnique` | sample.go:64-77 | there is only one such listing, so `Store.Listing` and with it every full transfer are determined by the store |
| `Store.MatchingLists` | sample.go:79-98 | an index query finds exactly the items with that value, in ascending key order |
| `Store.ExtractExactly` | sample.go:28-34 | an item is indexed under its attribute when that is text, and under the empty value otherwise |
| `Query.RoutedExactly` | server.go:236-308 | a TXT query for a key's owner name looks up that key if and only if the key is non-empty, unreserved and not shadowed by an index |
| `Query.IndexedValue` | server.go:288-306 | a name below the label of a configured index looks up everything before that label, dots and all, and below any other label leads to its key, unless it starts with "k-" or is the server's own |
| `Query.IndexedBase` | server.go:300-305 | a single base32 label below an index, in any spelling, looks up what it spells |
| `Query.TransferAnswersQueries` | server.go:308-329 | a full transfer of any store holds one record per item that can be rendered, in ascending key order; for keys that no index shadows, each is the answer to a TXT query for its name in any letter case exactly when the key is unreserved, not empty and not null, or reserved with a twin that is not null and shows the same JSON |
| `Query.ReadThenRequire` | update.go:255-272 | a value read over the wire satisfies its own value-dependent prerequisite exactly when its JSON has no backslash, and gets NXRRSET otherwise |
| `Query.ValueDecides` | update.go:255-272 | for every byte string, the prerequisite that names it passes if and only if it is the item's JSON byte for byte, and otherwise gets NXRRSET |
| `Query.CompareAndSwap` | update.go:67-70 | compare and swap: a request with such a prerequisite succeeds only on an item with exactly that JSON, and changes nothing on any other |
| `Query.ExistenceAgrees` | update.go:234-254 | a query and the existence prerequisites never disagree, and the failure codes are those of section 3.2 of RFC 2136 |
| `Query.ReadYourWrite` | update.go:170-181 | after a successful insertion a query for that name, in any letter case, shows the decoded payload |
| `Query.ReadYourDelete` | update.go:178-181 | after a successful deletion every deleted name answers NXDOMAIN |
| `Query.IndexShows` | server.go:341-362 | an index query shows exactly the zone of the items with that value, and NXDOMAIN exactly when there are none |
| `Query.KeyAnswered` | server.go:308-329 | a name that leads to a key, by type: SERVFAIL, NXDOMAIN with the SOA, the record for TXT and ANY, an empty answer with the SOA for any other type |
| `Query.ApexAnswered` | server.go:237-249 | the apex by type: SOA, NS, both, or an empty answer with the SOA |
| `Query.IndexAnswered` | server.go:334-363 | an index query by type, with every failure |
| `Query.OwnNamesAnswered` | server.go:251-286 | the answers at the status, health, metrics and ns1 names |
| `Query.MetricsRejoin` | server.go:265-270 | the records at the metrics name rejoin to the counters' JSON, every string but the last full |
| `Divergence.OverwrittenNullMisleads` | update.go:186-195 | overwriting a stored null is answered NOERROR and leaves up-to-date secondaries with a wrong zone |
| `Divergence.NullThenItemMisleads` | update.go:130-204 | two UPDATEs, both answered NOERROR, get there from any store without the key |
| `Divergence.MisleadsExactly` | update.go:154-204 | on a serving primary exactly the unfaithful requests are answered NOERROR and then serve an up-to-date secondary wrongly |
| `Divergence.AliasesMislead` | update.go:172-203 | two spellings of one key with different values are answered NOERROR, store the first value, journal both as added, and leave up-to-date secondaries with a wrong zone |
| `Divergence.SharedNameMisleads` | server.go:179-182 | a deletion of one of two keys with one owner name and JSON is answered NOERROR and withdraws the record of both from secondaries |
| `Divergence.CollisionMisleads` | server.go:179-182 | three UPDATEs, each answered NOERROR, lead there: insertions at the names of "HELLO" and "k-jbcuytcp", then a deletion at the first |
| `Divergence.SpellingsOfA` | server.go:140-150 | the padded and the unpadded name of the key "A" are such spellings, in lower case |
| `Divergence.SpellingsOfAMislead` | update.go:172-203 | one UPDATE with different values at these two names misleads |
| `Divergence.NullDoesNotLock` | update.go:130-134 | insert-if-absent with the payload null succeeds, and the same request succeeds again on the resulting state |
| `Divergence.NullFreesLock` | update.go:130-181 | an UPDATE without prerequisites that inserts null frees a held key without deleting it |
| `Dnssec.GroupSection` | dnssec.go:198-211 | the map loop finds the RRsets, each with its records in section order; `SignedTogether` and `OrderOfAppearance` say which and in what order |
| `Dnssec.AppendSignatures` | dnssec.go:212-231 | one signature per RRset on which the primitive succeeds |
| `Dnssec.SignRRset` | dnssec.go:213-230 | one RRset's signature, with the TTL substituted when it is zero, or none |
| `Dnssec.SignSectionByGroups` | dnssec.go:193-233 | the two loops together compute the signed section |
| `Dnssec.SigningIsPartition` | dnssec.go:193-233 | when the primitive succeeds on each RRset of the section: the input, then one RRSIG per distinct RRset, the RRsets together holding exactly the signable records (section 2.2 of RFC 4035) |
| `Dnssec.SignedTogether` | dnssec.go:200-211 | two signable records are under one signature if and only if they have the same type and, up to letter case, the same owner name |
| `Dnssec.SignatureCovers` | dnssec.go:212-231 | each RRSIG stands at its first record's owner, names their type, keeps the first record's TTL or the response's when that is zero, and is made over exactly the section's records of that name and type |
| `Dnssec.OrderOfAppearance` | dnssec.go:206-212 | RRsets are signed in the order in which they first appear |
| `Dnssec.Message.Sign` | dnssec.go:153-189 | the response after signing in place, in every case |
| `Dnssec.SignedExactly` | dnssec.go:153-188 | nothing changes unless the client asked and neither section holds a signature; otherwise both extended sections are signed |
| `Dnssec.ExtendedExactly` | dnssec.go:172-183 | the denial added to a negative answer, its owner, TTL and ascending types, and the key added at the apex |
| `Dnssec.SignTwiceExactly` | dnssec.go:158-163 | a second pass, at any time, changes nothing if and only if the client did not ask or a signature was there, or some RRset could be signed the first time, or the response is neither negative nor at the apex and no RRset can be signed the second time |
| `Dnssec.SignIdempotent` | dnssec.go:158-163 | signing is idempotent whenever the primitive succeeds on every RRset presented to the first pass |
| `Dnssec.FailingSignerStacks` | dnssec.go:165-187 | with a primitive that always fails, for every response that signing engages with, a second pass changes it if and only if it is negative or at the apex |
| `Dnssec.NegativeAnswerStacks` | dnssec.go:172-174 | so the answer to a question about a missing name, an SOA, gets a second denial record |
| `Dnssec.ResponseTtl` | dnssec.go:265-275 | the loop finds the TTL that `FirstSoaTtlIs` describes |
| `Dnssec.FirstSoaTtlIs` | dnssec.go:265-275 | the first SOA's minimum, or its TTL when that is zero, or 300 without an SOA |

## Left out

- Sockets, goroutines, DoH, certificates, NOTIFY, the command line, configuration files, metrics counters: plumbing around the modelled core.
- TSIG and read authorisation: `handleUpdate` (update.go:27-49) and `refuse` only gate and wrap the modelled operations.
- The signature primitive and key files: the primitive is an arbitrary function that may fail; clock and key enter it as arguments.
- JSON, base64 and number formatting: arbitrary deterministic functions. That `json.Valid` precedes `Unmarshal` is folded into one parse that may fail.
- Message packing, compression and truncation: record length is an arbitrary natural number.
- DNS label and name length limits: the server does not enforce them for the `k-` form, and the name codec is on strings only.
- Bytes outside ASCII in letter-case folding: `ToLower`, `ToUpper` and `EqualFold` fold ASCII letters only, and invalid UTF-8 is kept as it is.
- `DynamoStore`: the store is the in-memory one. `dynamoStore.Put` rewrites the key attribute (store.go:97-101), so what it renders later can differ from what was journalled.
- Concurrent UPDATEs beyond the journal: between pre-read and commit the program holds no lock; only `Journal.Interleave` models writers that race.
- Transfers racing writes, and write errors or listing errors in the middle of a transfer: a reply is computed from one state and sent whole.
- The UDP size cap of `streamZone` (transfer.go:123-126): no caller reaches it, as UDP IXFR gets a lone SOA and UDP AXFR is refused.
- SOA fields other than serial, TTL and minimum: constants of the zone.
- `Server.Handler.BuildResponse`: the JSON of the status and of the counters, and the parsed advertised address, are parameters.
- `Dnssec.SigningIsPartition`: RRSIG fields other than owner, TTLs, covered type and signature (algorithm, key tag, validity times) are inputs of the primitive only.
- The semantic strength of the NSEC denials: not decided by this code.
- `Journal.InterleavedWindow`: what is answered after more than 4096 late records is not described beyond `InterleavedSound`; pruning may then go round all serials and heal the journal.
- `Query.TransferAnswersQueries`: keys shadowed by an index are left to `Query.IndexShows`.
- `Base32.DecodeQuanta`: of 9 to 15 symbols left once newlines are skipped, with padding in the first eight, the library ignores the rest and the model refuses the whole; padding to a multiple of eight happens before newlines are skipped, so such text can only come from a name holding newlines, and no theorem reaches it.
- `Txt.ReadBackExactly`: the bytes a library sends for a string held in presentation form follow section 5.1 of RFC 1035; the library's own packer is not part of this model.
- `Store.SortStrings`: an insertion sort stands for the library's sort, whose result on distinct keys is unique.

# Verified model of the Rusty Router interface table and packet codecs

Rusty Router keeps two tables of network state, one of links and one of interfaces, and speaks OSPF
over IPv4. This project models two parts of it in Dafny and proves what they promise.

**The interface tables.** A table stores status items under a slot counter and finds them through
three secondary indexes (name, device name, device index). A new item evicts whatever shares a key
with its id, by a removal that recurses. Two writers change the tables: a listener, which applies
single kernel messages, and a poll, which dumps all links and addresses, builds a snapshot from the
dumps and the configuration, and reconciles each table with it. A stored status is replaced under
its own id only when it is more than five seconds older than the snapshot's. What changed is sent to
the subscribers.

**The packet codecs.** `InternetChecksum` adds eight-byte words in the byte order of the target into
128 bits, swaps the sum once on little-endian targets, adds a shifted tail and folds six times. The
OSPF header parser has a second checksum loop, over sixteen-bit words with one fold. The Hello
builder, parser and serialiser stand on both, the IPv4 header builder on the first.

## How it is laid out

| file | what it holds |
|---|---|
| `NetworkModel.dfy`, `Wrappers.dfy` | ids, items, statuses, configuration; a table seen as a set of items |
| `StatusTable.dfy` | the table as a class over its maps, with the recursive removal |
| `Reconciliation.dfy` | the drain of a snapshot, its order-free meaning, accounting, hold-down |
| `Addresses.dfy`, `NetlinkProcessor.dfy` | sorted address lists; reading kernel messages |
| `Snapshot.dfy`, `SnapshotTheorems.dfy`, `SnapshotContents.dfy` | building the snapshot; what every snapshot has; what it shows of the messages |
| `InterfaceEvents.dfy`, `PollTheorems.dfy` | the steps of the manager and its runs; reports, convergence and debounce |
| `InterfaceManager.dfy`, `MessageTheorems.dfy` | the manager as a class: events, poll, subscribers, whole executions; what each message does |
| `Bytes.dfy`, `InternetChecksum.dfy` | byte orders; the checksum against RFC 1071 |
| `OspfHeader.dfy`, `OspfHello.dfy`, `Ipv4Header.dfy` | the codecs, their round trips and their checksums |

The classes (`StatusTable`, `InterfaceManager`, `Subscriber`, `InternetChecksum`,
`Ipv4HeaderBuilder`) carry the mutable state, and their methods are specified by functions on values.
The lemmas are about those functions. The two tables have the same shape in the source, so the table
is written once, generic in the status. Maps are drained in an arbitrary order wherever the source
drains a hash map.

## What was found

- The order in which a poll drains its snapshot does not show in the table if and only if no two
  snapshot entries share a key (`OrderIrrelevantIffCollisionFree`). Valid configurations and dumps
  give such snapshots.
- A poll with a colliding snapshot evicts items while it puts the established ones back and ignores
  what it evicts. No old item is lost without a report (`PollAccounting`), but an entry that was
  announced can be missing from the table: this is excluded if and only if no two snapshot entries
  share a key (`AnnouncedAreStoredIffCollisionFree`).
- A Hello that `OspfHelloPacketBuilder::build` makes is rejected by the parser exactly when the
  two halves of its word sum add to 65536 or more, since the parser folds the carry once. The two
  checksums then differ by one. `SomeBuiltHelloIsRejected` shows that this happens, and
  `RightChecksumAcceptedIff` says the same of every OSPF packet with a right checksum.
- On a little-endian target the 128-bit sum can overflow, from 25 bytes on and never for whole
  eight-byte words. `OverflowExactly` gives the condition, and `SomeHelloOverflows` a Hello that
  cannot be built for this reason.
- The IPv4 parser multiplies the fragment offset by eight and the serialiser does not divide it, so
  only headers with offset zero survive, and only five-word headers are written.
- `hello.rs` contains unresolved merge markers (lines 85, 131 and 140). The "Updated upstream" side is
  modelled, which all other code uses. The word-boundary test at `hello.rs:156` can never fail, as the
  header parser has made it already.

## Model

| member | source | states |
|---|---|---|
| InterfaceDatabase.StatusTable.Remove | rusty-router-platform-linux/src/interface/database.rs:138-167 | from any state in which the indexes agree (entries of removed slots tolerated), recursion ends, exactly the items with a key of the id are gone, each appended once in lookup order, and every index entry for them or for the id's keys is forgotten |
| InterfaceDatabase.StatusTable.RemoveItem | rusty-router-platform-linux/src/interface/database.rs:169-201 | called on a table without stale entries it leaves none: the full index agreement is kept and the contents are the old ones without those sharing a key |
| InterfaceDatabase.EvictedExactly | rusty-router-platform-linux/src/interface/database.rs:138-167 | the list a removal returns holds each item that a linear scan finds exactly once, and never more than three |
| InterfaceDatabase.EvictedInOrder | rusty-router-platform-linux/src/interface/database.rs:143-166 | the holder of the name is listed before the holder of the device, and that before the holder of the index alone |
| InterfaceDatabase.AgreementMakesKeysUnique | rusty-router-platform-linux/src/interface/database.rs:7-19 | the index agreement implies that no two stored items share a key |
| InterfaceDatabase.StatusTable.SetItem | rusty-router-platform-linux/src/interface/database.rs:55-78 | the counter's slot is always free, so nothing is overwritten; the contents become the survivors plus the new item; the evicted items are returned |
| InterfaceDatabase.StatusTable.Insert | rusty-router-platform-linux/src/interface/database.rs:119-135 | putting an item with free keys into the next slot keeps the index agreement and adds only that item |
| InterfaceDatabase.StatusTable.GetByIndex | rusty-router-platform-linux/src/interface/database.rs:90-97 | lookup by device index equals a scan of the contents |
| InterfaceDatabase.LookupIsScan | rusty-router-platform-linux/src/interface/database.rs:90-97 | under the agreement the index entry, followed into the primary map, finds what the scan finds and nothing else |
| InterfaceDatabase.StatusTable.TakeAll | rusty-router-platform-linux/src/interface/database.rs:47-53 | the table is empty and valid afterwards and every slot's item is listed exactly once |
| NetworkModel.PutKeepsCollisionFree | rusty-router-platform-linux/src/interface/database.rs:112-136 | setting and removing keep a table in which no two items share a key |
| Reconciliation.Reconcile | rusty-router-platform-linux/src/interface/mod.rs:360-395 | for some listing of the snapshot, the table ends as the step-by-step drain in that order says, with the drain's announcements and with the leftover items reported deleted, each once |
| Reconciliation.ReconcileEntry | rusty-router-platform-linux/src/interface/mod.rs:360-385 | one entry: everything sharing a key leaves the table; an item under the same id is put back silently if its status equals the entry's or the entry is stamped within five seconds of it, else the entry is put back and announced, as it is when the id is not stored |
| Reconciliation.StoredIdDecided | rusty-router-platform-linux/src/interface/mod.rs:366-395 | in any drain order of a collision-free snapshot an item stored under an entry's id stays and the entry is not announced if the statuses are equal or the stamps within five seconds; otherwise the entry is stored and announced |
| Reconciliation.NewIdAnnounced | rusty-router-platform-linux/src/interface/mod.rs:366-370 | an entry whose id is not stored is stored and announced |
| Reconciliation.NothingElse | rusty-router-platform-linux/src/interface/mod.rs:360-395 | nothing else is stored or announced, nothing is announced twice, and what is reported deleted is exactly what shares no key with the snapshot |
| Reconciliation.FinalClosedForm | rusty-router-platform-linux/src/interface/mod.rs:360-395 | on a collision-free snapshot every drain order leaves the same contents, given in closed form entry by entry |
| Reconciliation.ReportsClosedForm | rusty-router-platform-linux/src/interface/mod.rs:364-392 | every drain order announces the same items and reports the same items deleted |
| Reconciliation.OrderIrrelevantIffCollisionFree | rusty-router-platform-linux/src/interface/mod.rs:360-395 | all orders agree on all tables if and only if no two snapshot entries share a key |
| Reconciliation.FinalFromEither | rusty-router-platform-linux/src/interface/mod.rs:360-395 | even from a colliding snapshot the table that results has no collisions and holds only old items and announced entries |
| Reconciliation.PollAccounting | rusty-router-platform-linux/src/interface/mod.rs:360-395 | in any order of any snapshot, colliding or not: every old item has exactly one of four fates, namely kept, replaced by an announced entry under its id after the hold, displaced by an announced entry that shares a key, reported deleted; so neither the drain nor the put-back loses an item silently |
| Reconciliation.AnnouncedAreStoredIffCollisionFree | rusty-router-platform-linux/src/interface/mod.rs:366-395 | whatever is announced is in the table afterwards, for every table and order, if and only if no two snapshot entries share a key |
| Reconciliation.FateWithoutCollisions | rusty-router-platform-linux/src/interface/mod.rs:360-395 | when moreover the snapshot has no collisions, the item in the place of a replaced or displaced one is itself in the table, and every displacing entry is announced |
| Reconciliation.AnnouncedAreNew | rusty-router-platform-linux/src/interface/mod.rs:366-385 | on the order-free sets: what is announced is exactly what is stored afterwards and was not before (`ValidPollReports` applies it to the report of a poll) |
| Reconciliation.FinalHasSnapshotIds | rusty-router-platform-linux/src/interface/mod.rs:387-395 | after a poll with a collision-free snapshot the table holds exactly the snapshot's ids |
| Reconciliation.PollHolds | rusty-router-platform-linux/src/interface/mod.rs:373-383 | an item whose id stays is either untouched or replaced by the snapshot's, which has another status and a stamp more than five seconds later |
| Reconciliation.Debounce | rusty-router-platform-linux/src/interface/mod.rs:373-383 | over any sequence of reconciliations, n status changes of an id that stays put its last stamp more than 5n seconds after its first |
| NetlinkProcessor.Invert | rusty-router-platform-linux/src/netlink/processor.rs:15-22 | every value has an entry, and each entry names a key that has this value |
| NetlinkProcessor.InverseOfInjective | rusty-router-platform-linux/src/netlink/processor.rs:16-20 | with distinct devices the inverse is the same whatever the order it was collected in |
| NetlinkProcessor.ProcessLink | rusty-router-platform-linux/src/netlink/processor.rs:24-71 | reports exactly for link messages of family 0 with a name, from the last name and the last state attribute |
| NetlinkProcessor.LinkReportIff | rusty-router-platform-linux/src/netlink/processor.rs:24-71 | a message reports a link if and only if it is a link message of family 0 with a name attribute, and then its device is the last name, its state stands for the last state attribute, unknown without one, and its name is the configured one of the device |
| NetlinkProcessor.ProcessAddress | rusty-router-platform-linux/src/netlink/processor.rs:73-122 | reports the last address attribute whose length fits the family, or nothing |
| NetlinkProcessor.AddressReportIff | rusty-router-platform-linux/src/netlink/processor.rs:73-122 | a message reports an address if and only if an attribute of four bytes in family 2, or of sixteen in family 10, holds one, and then it is that of the last such attribute |
| Snapshot.BuildSnapshot | rusty-router-platform-linux/src/interface/mod.rs:163-352 | for any dumps and configuration the two maps hold exactly the specified link and interface entries under their own ids, stamped within the call |
| Snapshot.ReadLinkDump | rusty-router-platform-linux/src/interface/mod.rs:188-207 | the four maps filled in one pass hold what the dump says by index, by name and by id, and which configured links it lacks |
| Snapshot.AddUnmapped | rusty-router-platform-linux/src/interface/mod.rs:209-238 | every configured link not dumped is shown as not found, and so is the interface on it |
| Snapshot.ConfiguredInterfaces | rusty-router-platform-linux/src/interface/mod.rs:252-326 | each configured interface gets its entry by the three cases, and each index's addresses go to one interface that stands on it |
| Snapshot.LeftoverInterfaces | rusty-router-platform-linux/src/interface/mod.rs:327-347 | addresses left on a dumped link without a configured interface become an unnamed interface |
| Snapshot.MissingOverridesConfigured | rusty-router-platform-linux/src/interface/mod.rs:348-352 | the final merge turns the misconfigured entry of an interface on an absent link into its not-found entry and touches no other |
| SnapshotTheorems.LinkSpecCollisionless | rusty-router-platform-linux/src/interface/mod.rs:188-219 | for a valid configuration and dump no two link entries of the snapshot share a key |
| SnapshotTheorems.InterfaceSpecCollisionless | rusty-router-platform-linux/src/interface/mod.rs:252-352 | for a valid configuration and dump no two interface entries of the snapshot share a key |
| SnapshotTheorems.EmptyDumpNeedsDistinctDevices | rusty-router-platform-linux/src/interface/mod.rs:209-219 | with an empty dump the link entries are collision-free if and only if no device is configured twice |
| SnapshotTheorems.AddressesConserved | rusty-router-platform-linux/src/interface/mod.rs:240-352 | for every configuration and dump: the addresses dumped for a dumped link appear, sorted and with their multiplicity, in exactly one interface entry, and every other entry of the index has none |
| SnapshotTheorems.NoOtherAddresses | rusty-router-platform-linux/src/interface/mod.rs:240-352 | an entry that has addresses stands on a dumped link and has exactly those dumped for it |
| SnapshotTheorems.SnapshotDetermined | rusty-router-platform-linux/src/interface/mod.rs:163-352 | for a valid configuration and dump no hash-map order shows in the snapshot |
| SnapshotContents.LinksShown | rusty-router-platform-linux/src/interface/mod.rs:188-219 | for every configuration and dump, said of the messages: the links of a snapshot are exactly the last report of each link and, as not found, the configured links that no message names |
| SnapshotContents.DumpedLinkShown | rusty-router-platform-linux/src/interface/mod.rs:193-206 | every link that a valid dump reports is in the snapshot with its index, name, device and reported status |
| SnapshotContents.InterfacesShown | rusty-router-platform-linux/src/interface/mod.rs:240-352 | for a valid configuration and dump, said of the messages: the interfaces of a snapshot are exactly the configured ones, on their link as dumped with the index's addresses counted message by message, or on a link not found, or on none, and the unnamed ones of other dumped links with addresses |
| SnapshotContents.AbsentLinkShown | rusty-router-platform-linux/src/interface/mod.rs:220-237 | for every configuration and dump, an interface on a configured link that is not dumped is on a link not found if the link's inverse names it, and misconfigured otherwise |
| InterfaceManagement.InterfaceManager.NewLinkReceived | rusty-router-platform-linux/src/interface/mod.rs:518-582 | keeps the index agreement; the new contents and the updates to send, as functions of the old contents |
| InterfaceManagement.InterfaceManager.DelLinkReceived | rusty-router-platform-linux/src/interface/mod.rs:587-659 | keeps the index agreement; a named link stays without an index, an unnamed one goes, and the interface on it likewise |
| InterfaceManagement.InterfaceManager.NewAddressReceived | rusty-router-platform-linux/src/interface/mod.rs:664-685 | keeps the index agreement; the address list of the interface on the index becomes the sorted list with the address, nothing else changes |
| InterfaceManagement.InterfaceManager.DelAddressReceived | rusty-router-platform-linux/src/interface/mod.rs:690-712 | keeps the index agreement; the first equal address is taken out of the interface on the index, nothing else changes |
| InterfaceManagement.InterfaceManager.MessageReceived | rusty-router-platform-linux/src/interface/mod.rs:510-714 | one listener step of the run relation; retained subscribers get exactly the updates of a new link, dropped ones a strict prefix, and no other message sends anything |
| MessageTheorems.NewLinkMessage | rusty-router-platform-linux/src/interface/mod.rs:514-582 | a message that reports a new link: the whole new link table and interface table, from the attributes of the message |
| MessageTheorems.DelLinkMessageOnLinks | rusty-router-platform-linux/src/interface/mod.rs:583-613 | a message that reports a deleted link: the whole new link table |
| MessageTheorems.DelLinkMessageOnInterfaces | rusty-router-platform-linux/src/interface/mod.rs:615-658 | and the whole new interface table |
| MessageTheorems.NewAddressMessage | rusty-router-platform-linux/src/interface/mod.rs:660-685 | a message that reports a new address adds it to the multiset of the interface on its index, keeps the list sorted and changes nothing else |
| MessageTheorems.DelAddressMessage | rusty-router-platform-linux/src/interface/mod.rs:686-712 | a message that reports a deleted address takes it out of that multiset once, keeps the list sorted and changes nothing else |
| MessageTheorems.SilentMessage | rusty-router-platform-linux/src/interface/mod.rs:510-714 | a message without a report leaves both tables as they were |
| MessageTheorems.NewLinkSent | rusty-router-platform-linux/src/interface/mod.rs:565-580 | what is sent for a new link: its status, and then the interface on it with that link |
| MessageTheorems.NothingSent | rusty-router-platform-linux/src/interface/mod.rs:583-714 | nothing is sent for any other message |
| InterfaceManagement.InterfaceManager.TryPoll | rusty-router-platform-linux/src/interface/mod.rs:147-487 | on a failed reply the tables, the subscribers and what was sent to them stay; otherwise both tables are reconciled with the built snapshot, and retained subscribers were told of the deleted links, the links, the deleted interfaces on a link not found and the interfaces, one update each in this order, dropped ones of a strict prefix |
| InterfaceManagement.BatchLaidOut | rusty-router-platform-linux/src/interface/mod.rs:458-482 | the batch, position by position: status of each deleted link, of each link, of each deleted interface with its link not found, of each interface |
| InterfaceManagement.InterfaceManager.ApplySnapshot | rusty-router-platform-linux/src/interface/mod.rs:354-484 | the half of a poll under the lock, on a snapshot stamped at any earlier time: reconciliation of both tables, report and batch |
| InterfaceManagement.InterfaceManager.Publish | rusty-router-platform-linux/src/interface/mod.rs:458-484 | the retained subscribers, in their old order, have gained the whole batch, every dropped one a strict prefix |
| InterfaceManagement.Deliver | rusty-router-platform-linux/src/interface/mod.rs:458-484 | a subscriber is kept only with the whole batch sent in order, and dropped only after a strict prefix |
| InterfaceManagement.Execute | rusty-router-platform-linux/src/interface/mod.rs:47-93 | for every interleaving of messages, subscriptions, starts and ends of polls, failed replies included, both tables keep their index agreement, the states passed through form a run, and the last one has all the invariants |
| InterfaceManagement.StepsMean | rusty-router-platform-linux/src/interface/mod.rs:139-162 | the run's steps are the events' messages and, at the end of each poll whose two replies came, a poll of the dumps it started with |
| InterfaceEvents.RunsStayGood | rusty-router-platform-linux/src/interface/mod.rs:147-714 | in every state of every run of polls and messages, with any configuration and with snapshots that may be older than messages handled before their poll: no shared keys, ids agree with statuses, stamps are not in the future, address lists are sorted |
| InterfaceEvents.StepKeepsGood | rusty-router-platform-linux/src/interface/mod.rs:510-714 | each single step keeps those invariants |
| InterfaceEvents.AddressAddedAndDeleted | rusty-router-platform-linux/src/interface/mod.rs:668-710 | in a good state, adding an address and deleting it restores everything but the interface's stamp |
| InterfaceEvents.NewLinkShows | rusty-router-platform-linux/src/interface/mod.rs:521-582 | afterwards the link is the one on its index, no other shares its keys, the interface on it shows its status with the old addresses, and links and interfaces without a key in common stay |
| InterfaceEvents.DelLinkPurges | rusty-router-platform-linux/src/interface/mod.rs:590-658 | afterwards every link on the device is unindexed and not found; if an interface stood on it, none is on the index any more, a named one stays with its addresses and an unnamed one is gone |
| InterfaceEvents.DelLinkKeepsOthers | rusty-router-platform-linux/src/interface/mod.rs:590-658 | links without the name or device stay, the only link added is the unindexed one, and every interface but the one that stood on the device stays |
| Addresses.AddThenDelete | rusty-router-platform-linux/src/interface/mod.rs:671-700 | adding to a sorted list with a sort and then removing the first equal address gives exactly the old list |
| Addresses.SortedIsUnique | rusty-router-model/src/config.rs:104-105 | the derived order makes the sorted list of a multiset unique |
| Addresses.AddressOrder | rusty-router-model/src/config.rs:104-105 | the order is total, with version 4 first, then the bits, then the prefix length |
| PollTheorems.PollReportsAccount | rusty-router-platform-linux/src/interface/mod.rs:360-455 | any poll from a good state, valid or not: each old item of either table is kept, replaced or displaced by an announced entry, or reported deleted, exactly one of these |
| PollTheorems.ValidPollReports | rusty-router-platform-linux/src/interface/mod.rs:360-455 | with a valid configuration and dump a poll announces exactly what is new in each table and reports deleted exactly the items that share no key with its snapshot |
| PollTheorems.ValidPollDecides | rusty-router-platform-linux/src/interface/mod.rs:360-455 | for both tables of a valid poll, from statuses and stamps: which items are kept silently, which entries are stored and announced, and nothing besides |
| PollTheorems.ValidPollReconciles | rusty-router-platform-linux/src/interface/mod.rs:360-455 | with a valid configuration and dump, from any good state, a poll leaves the order-free reconciliation of both tables and exactly the snapshot's ids |
| PollTheorems.QuietPollConverges | rusty-router-platform-linux/src/interface/mod.rs:366-455 | a poll begun more than five seconds after the last change leaves every id and status equal to what the dumps and the configuration say |
| PollTheorems.QuietPollShowsLink | rusty-router-platform-linux/src/interface/mod.rs:188-207 | after such a poll every dumped link is stored with the status its message reports |
| PollTheorems.TwoPollsConverge | rusty-router-platform-linux/src/interface/mod.rs:366-455 | two polls over the same dumps, the second more than five seconds later and nothing in between, leave the tables equal to the snapshot of both |
| PollTheorems.LinkStatusDebounced | rusty-router-platform-linux/src/interface/mod.rs:373-383 | in any run of valid polls, n status changes of a link that stays in the snapshots take more than 5n seconds |
| PollTheorems.InterfaceStatusDebounced | rusty-router-platform-linux/src/interface/mod.rs:417-427 | the same for an interface, address changes included |
| Checksum.PartialIsRfc | rusty-router-proto-common/src/lib.rs:51-79 | on either byte order, the word sum, the swap and the tail, once folded, give the complemented end-around-carry sum of section 1 of RFC 1071, for all data |
| Checksum.OnesSumIsCanon | rusty-router-proto-common/src/lib.rs:67-79 | the end-around-carry sum is the representative modulo 65535 of the plain sum that is zero only for zero |
| Checksum.Swap128Congruent | rusty-router-proto-common/src/lib.rs:58-60 | swapping sixteen bytes multiplies by 256 modulo 65535 and keeps zero apart |
| Checksum.PartialCongruent | rusty-router-proto-common/src/lib.rs:51-65 | the accumulator of either byte order is congruent to the 16-bit word sum modulo 65535, and zero only for zero data |
| Checksum.PartialResult | rusty-router-proto-common/src/lib.rs:51-65 | the loops compute the word sum, swap and tail, and report overflow exactly when the sum leaves 128 bits |
| Checksum.FinalResult | rusty-router-proto-common/src/lib.rs:67-79 | for all 2^128 accumulators six folds suffice: the result is the complement of the representative modulo 65535, which is zero only for accumulator zero |
| Checksum.ChecksumOf | rusty-router-proto-common/src/lib.rs:47-49 | the checksum equals that of RFC 1071 whenever the sum stays in range |
| Checksum.OverflowExactly | rusty-router-proto-common/src/lib.rs:58-63 | on a little-endian target the sum overflows if and only if the low half of the word sum is all ones and the swapped high half plus the tail carries |
| Checksum.BigEndianStaysInRange | rusty-router-proto-common/src/lib.rs:51-65 | on a big-endian target no data overflows |
| Checksum.ShortOrWholeStaysInRange | rusty-router-proto-common/src/lib.rs:52-63 | no data of up to 24 bytes or of whole eight-byte words overflows, on either target |
| Checksum.TwentyFiveBytesCanOverflow | rusty-router-proto-common/src/lib.rs:61-63 | some 25 bytes do |
| Checksum.InternetChecksum.Add | rusty-router-proto-common/src/lib.rs:33-36 | the accumulator becomes the specified one, or stays when the source's arithmetic would leave 128 bits |
| Checksum.InternetChecksum.Subtract | rusty-router-proto-common/src/lib.rs:38-41 | likewise for subtraction below zero |
| Checksum.AccumulatorTracksBalance | rusty-router-proto-common/src/lib.rs:33-41 | after any in-range sequence of operations the accumulator is congruent modulo 65535 to the words added minus those subtracted |
| Checksum.IncrementalChecksum | rusty-router-proto-common/src/lib.rs:33-45 | the calculated checksum is that of the remaining data if and only if accumulator and remaining sum are both zero or both not; otherwise the two are 0x0000 and 0xFFFF |
| Checksum.ZerosAreConfused | rusty-router-proto-common/src/lib.rs:33-45 | the two zeros are confused: some addition and subtraction leave no data and yet the result is 0x0000, not 0xFFFF |
| Checksum.PrefixTakenOut | rusty-router-proto-common/src/lib.rs:38-41 | adding a packet and subtracting an even prefix leaves the sum of the rest |
| OspfHeaders.SumUnskipped | rusty-router-proto-ospfv2/src/packet/header.rs:293-306 | the byte loop that skips the checksum and authentication bytes computes the word sum of the data with those bytes zero |
| OspfHeaders.ParseHeader | rusty-router-proto-ospfv2/src/packet/header.rs:260-335 | the parser decides as its specification, error by error in the source's order |
| OspfHeaders.HeaderAcceptedIff | rusty-router-proto-ospfv2/src/packet/header.rs:260-319 | exactly which buffers are accepted: length, word boundary, authentication type, checksum over the bytes outside 12 to 13 and 16 to 23, version and message type |
| OspfHeaders.HeaderFieldsRead | rusty-router-proto-ospfv2/src/packet/header.rs:320-333 | each field of an accepted header is the number at its place |
| OspfHeaders.HeaderErrors | rusty-router-proto-ospfv2/src/packet/header.rs:264-322 | the first test that fails names the error and its values |
| OspfHeaders.AuthPrintsKept | rusty-router-proto-ospfv2/src/packet/header.rs:129-171 | reading and writing the authentication field keeps exactly the bytes its type uses |
| OspfHeaders.HeaderPrintNormalises | rusty-router-proto-ospfv2/src/packet/header.rs:337-352 | for every accepted header of every authentication type, printing gives the bytes back but for authentication bytes the type does not use |
| OspfHello.ParseHello | rusty-router-proto-ospfv2/src/packet/hello.rs:142-195 | the parser with its loop decides as its specification |
| OspfHello.HelloAcceptedIff | rusty-router-proto-ospfv2/src/packet/hello.rs:145-165 | exactly which buffers are accepted, and the error of each other one |
| OspfHello.HelloFieldsRead | rusty-router-proto-ospfv2/src/packet/hello.rs:167-192 | each field of an accepted Hello is the number at its place |
| OspfHello.NeighborsRead | rusty-router-proto-ospfv2/src/packet/hello.rs:175-181 | and neighbor k that at byte 44 + 4k |
| OspfHello.SerialiseHello | rusty-router-proto-ospfv2/src/packet/hello.rs:196-214 | the serialiser with its loop writes header, fields and neighbors |
| OspfHello.PrintedHeaderStands | rusty-router-proto-ospfv2/src/packet/header.rs:337-352 | each header field of a printed packet stands at its place |
| OspfHello.PrintedBodyStands | rusty-router-proto-ospfv2/src/packet/hello.rs:196-206 | and each field of the body |
| OspfHello.PrintedNeighborStands | rusty-router-proto-ospfv2/src/packet/hello.rs:208-210 | and neighbor k at byte 44 + 4k |
| OspfHello.NeighborsRoundTrip | rusty-router-proto-ospfv2/src/packet/hello.rs:177-181 | neighbors read back as they were written |
| OspfHello.NeighborBytesRoundTrip | rusty-router-proto-ospfv2/src/packet/hello.rs:208-210 | any bytes of whole words are written back as they were read |
| OspfHello.ParseThenPrint | rusty-router-proto-ospfv2/src/packet/hello.rs:142-214 | for every accepted buffer, printing gives the packet's own bytes with bytes 16 to 23 zero, which are accepted again and parse to the same packet |
| OspfHello.Build | rusty-router-proto-ospfv2/src/packet/hello.rs:51-79 | up to 16372 neighbors the packet is a Hello with each of the builder's fields, its own length, no authentication and the RFC 1071 checksum of itself without one, unless the 128-bit sum overflows; above that the source's error |
| OspfHello.OddNeighborCountBuilds | rusty-router-proto-ospfv2/src/packet/hello.rs:76-78 | an odd number of neighbors never overflows |
| OspfHello.SomeHelloOverflows | rusty-router-proto-ospfv2/src/packet/hello.rs:76-78 | some Hello without neighbors does, on a little-endian target |
| OspfHello.UnsummedSum | rusty-router-proto-ospfv2/src/packet/hello.rs:196-213 | the word sum of the printed packet is the sum of the halves of the builder's fields |
| OspfHello.PrintThenParse | rusty-router-proto-ospfv2/src/packet/hello.rs:142-214 | of all packets exactly those survive printing and parsing whose length counts their neighbors, which have no authentication, and whose checksum is the once-folded sum of what is printed |
| OspfHello.ConsistentPacketParses | rusty-router-proto-ospfv2/src/packet/hello.rs:142-214 | a packet of the right length without authentication parses back to itself or is rejected with the expected checksum and its own |
| OspfHeaders.OneFoldVersusCanon | rusty-router-proto-ospfv2/src/packet/header.rs:307-308 | folding once equals folding fully when the halves add below 65536 and gives a checksum larger by one otherwise |
| OspfHeaders.RightChecksumAcceptedIff | rusty-router-proto-ospfv2/src/packet/header.rs:260-319 | any packet, of any router, type and uncryptographic authentication, that carries the RFC 1071 checksum is accepted if and only if the halves of its word sum add below 65536; otherwise the parser expects exactly one more |
| OspfHello.BuildThenParse | rusty-router-proto-ospfv2/src/packet/hello.rs:51-79 | a built Hello parses back to itself if and only if the halves of its field sum add below 65536; otherwise it is rejected with an expected checksum larger by exactly one |
| OspfHello.SomeBuiltHelloIsRejected | rusty-router-proto-ospfv2/src/packet/header.rs:307-319 | a builder whose packet is built and then rejected, on either target |
| Ipv4Headers.PrintThenParse | rusty-router-proto-ip/src/lib.rs:317-400 | a header survives printing and parsing if and only if version is 4, header length 5 and fragment offset 0 |
| Ipv4Headers.PrintThenParseGives | rusty-router-proto-ip/src/lib.rs:317-400 | what printing and parsing makes of every header, the lossy ones and the version error included |
| Ipv4Headers.ParseThenPrint | rusty-router-proto-ip/src/lib.rs:317-400 | an accepted header is printed back byte for byte if and only if it has no options and its offset field is zero |
| Ipv4Headers.Ipv4AcceptedIff | rusty-router-proto-ip/src/lib.rs:317-351 | exactly which buffers are accepted, longer ones and headers with options included, and the error of each other one |
| Ipv4Headers.Ipv4FieldsRead | rusty-router-proto-ip/src/lib.rs:353-377 | each field of an accepted header is the number at its place, the offset scaled by eight |
| Ipv4Headers.Ipv4FieldsStand | rusty-router-proto-ip/src/lib.rs:380-400 | each field of a printed header stands at its place, the header length always as five |
| Ipv4Headers.Or3Bits | rusty-router-proto-ip/src/lib.rs:385-386 | the flags are put into the top bits by bitwise or |
| Ipv4Headers.LayoutReads | rusty-router-proto-ip/src/lib.rs:380-400 | each field reads back from its place among the twenty bytes |
| Ipv4Headers.Ipv4HeaderBuilder.ForceInternetHeaderLength | rusty-router-proto-ip/src/lib.rs:189-209 | sets or clears the forced length, and refuses a value above 15 without a change |
| Ipv4Headers.Ipv4HeaderBuilder.Build | rusty-router-proto-ip/src/lib.rs:221-244 | built exactly up to 65515 bytes of payload; every field of the result, and the RFC 1071 checksum of the header with a zero checksum unless one is forced |
| Ipv4Headers.VerifiesIff | rusty-router-proto-ip/src/lib.rs:239-242 | a printed header with any checksum in it sums to zero if and only if that is the computed one or the other form of its zero |
| Ipv4Headers.BuiltHeader | rusty-router-proto-ip/src/lib.rs:221-400 | every header built without a forced checksum has Internet checksum zero, and parses back to itself if and only if no length other than 5 was forced |

## Left out

- Concurrency: tasks, locks and reference counts; each message is one atomic step, and a poll is two, the building of its snapshot and what it does under the tables' lock, with messages in between. One worker polls at a time; a start while a snapshot waits replaces it, which the source's worker never does.
- InterfaceManagement.InterfaceManager.MessageReceived: the two sends of a new link (mod.rs:565-580) are one batch sent after both table updates, which leaves every subscriber with the same messages.
- Subscribers are distinct objects and subscribe once: two senders cloned from one channel are not modelled. Whether a send succeeds is left open, so capacity and receivers are not modelled.
- InterfaceDatabase.StatusTable.SetItem: the slot counter is unbounded, so the wrap-around of the 64-bit counter is not modelled.
- Checksum.InternetChecksum.Add: arithmetic is the checked kind, and leaving 128 bits is a failure; the wrapping arithmetic of release builds is not modelled.
- Checksum.PartialResult: data shorter than 2^64 bytes, the limit of a slice's length.
- Device indexes, address bits and prefix lengths are unbounded naturals; nothing computes with them but comparison.
- Names are strings of characters, and the order of names is not used, as the sorted listing getters are left out.
- Stamps come from a clock that never runs backwards and counts nanoseconds.
- The snapshot is assumed valid (distinct devices, one interface for a link, each index and device dumped once) only where a statement says so; the source leaves this unvalidated (mod.rs:40).
- Netlink sockets, decoding of netlink messages, raw sockets and timers; the two kernel replies are inputs.
- Random identification is an input of `Build`; IPv4 options are ignored as in the source.
- The OSPF and IPv4 error values keep their kind and numbers but not the protocol label.
- Subnet prefix lengths, flag membership and enumerations on their own: single-branch facts.

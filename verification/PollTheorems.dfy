/** What polls achieve on the tables when the configuration and the dumps are valid. */
module PollTheorems {
  import opened Wrappers
  import opened NetworkModel
  import opened NetlinkProcessor
  import opened Reconciliation
  import opened Snapshot
  import opened SnapshotContents
  import opened SnapshotTheorems
  import opened InterfaceEvents

  ghost function EntriesOf<T>(contents: set<Item<T>>): set<Entry<T>> {
    set v | v in contents :: Entry(v.id, v.status)
  }

  /** The two parts of a valid poll's snapshot do not collide. */
  lemma ValidSnapshotCollisionFree(config: Config, deviceLinks: map<string, string>, linkDump: seq<Message>,
                                   addressDump: seq<Message>, from: nat, to: nat, r: PollRecord)
    requires IsInverse(config.links, deviceLinks) && ValidConfig(config)
    requires ValidDump(LinkEntries(deviceLinks, linkDump))
    requires SnapshotBuilt(config, deviceLinks, linkDump, addressDump, from, to, r)
    ensures CollisionFree(ItemsOf(r.links)) && CollisionFree(ItemsOf(r.interfaces))
  {
    var es, groups := LinkEntries(deviceLinks, linkDump), AddressGroups(addressDump);
    LinkEntriesNamed(deviceLinks, linkDump);
    LinkSpecCollisionless(config, deviceLinks, es);
    CollectedCollisionFree(r.links, from, to, LinkSpec(config, es));
    InterfaceSpecCollisionless(config, deviceLinks, r.linkInterfaces, es, groups, r.owner);
    CollectedCollisionFree(r.interfaces, from, to, InterfaceSpec(config, r.linkInterfaces, es, groups, r.owner));
  }

  /** A valid poll is a reconciliation in no particular order, and leaves exactly the snapshot's ids. */
  lemma ValidPollReconciles(config: Config, deviceLinks: map<string, string>, linkDump: seq<Message>,
                            addressDump: seq<Message>, from: nat, to: nat, t: Tables, time: nat, t': Tables,
                            r: PollRecord)
    requires IsInverse(config.links, deviceLinks) && ValidConfig(config)
    requires ValidDump(LinkEntries(deviceLinks, linkDump)) && Good(t, time)
    requires Polled(config, deviceLinks, linkDump, addressDump, from, to, t, t', r)
    ensures t' == Tables(Final(t.links, ItemsOf(r.links)), Final(t.interfaces, ItemsOf(r.interfaces)))
    ensures Ids(t'.links) == Ids(ItemsOf(r.links)) && Ids(t'.interfaces) == Ids(ItemsOf(r.interfaces))
  {
    ValidSnapshotCollisionFree(config, deviceLinks, linkDump, addressDump, from, to, r);
    FinalClosedForm(t.links, ItemsOf(r.links), r.linkOrder);
    FinalClosedForm(t.interfaces, ItemsOf(r.interfaces), r.interfaceOrder);
    FinalHasSnapshotIds(t.links, ItemsOf(r.links));
    FinalHasSnapshotIds(t.interfaces, ItemsOf(r.interfaces));
  }

  // ----- What a poll reports -----

  lemma ListedOncePerId<T(!new)>(order: seq<Item<T>>, m: map<Id, Item<T>>)
    requires OwnKeys(m) && Listing(order, ItemsOf(m))
    ensures DistinctIds(order)
  {
    forall j, k | 0 <= j < k < |order| ensures order[j].id != order[k].id {
      assert order[j] in ItemsOf(m) && order[k] in ItemsOf(m);
    }
  }

  /** For one table: nothing in it goes without a report, whatever the snapshot. */
  lemma TableAccountedFor<T(!new)>(contents: set<Item<T>>, m: map<Id, Item<T>>, order: seq<Item<T>>,
                                   announced: seq<Item<T>>, deleted: seq<Item<T>>)
    requires CollisionFree(contents) && Keyed(contents) && OwnKeys(m) && Listing(order, ItemsOf(m))
    requires announced == Drain(contents, order).announced && ReportsOnce(deleted, Drain(contents, order).rest)
    ensures forall v :: v in contents ==>
              OneFateReported(v, FinalInOrder(contents, order), announced, set x | x in deleted)
  {
    ListedOncePerId(order, m);
    assert (set x | x in deleted) == Drain(contents, order).rest;
    forall v | v in contents
      ensures OneFateReported(v, FinalInOrder(contents, order), announced, set x | x in deleted)
    {
      PollAccounting(contents, order, v);
    }
  }

  lemma GoodIsKeyed(t: Tables, time: nat)
    requires Good(t, time)
    ensures Keyed(t.links) && Keyed(t.interfaces)
  {
  }

  /** Of any poll, with any configuration and any dumps: each item of either table is kept, replaced
      or displaced by an announced entry, or reported deleted. */
  lemma PollReportsAccount(config: Config, deviceLinks: map<string, string>, linkDump: seq<Message>,
                           addressDump: seq<Message>, from: nat, to: nat, t: Tables, time: nat, t': Tables,
                           r: PollRecord, b: PollReport)
    requires Good(t, time) && Polled(config, deviceLinks, linkDump, addressDump, from, to, t, t', r)
    requires Reports(t, r.linkOrder, r.interfaceOrder, b)
    ensures forall v :: v in t.links ==> OneFateReported(v, t'.links, b.links, set x | x in b.deletedLinks)
    ensures forall v :: v in t.interfaces ==>
              OneFateReported(v, t'.interfaces, b.interfaces, set x | x in b.deletedInterfaces)
  {
    GoodIsKeyed(t, time);
    TableAccountedFor(t.links, r.links, r.linkOrder, b.links, b.deletedLinks);
    TableAccountedFor(t.interfaces, r.interfaces, r.interfaceOrder, b.interfaces, b.deletedInterfaces);
  }

  /** The reports on one table, and its new contents, in closed form. */
  ghost predicate ReportsExactly<T(!new)>(contents: set<Item<T>>, after: set<Item<T>>, snapshot: set<Item<T>>,
                                          announced: seq<Item<T>>, deleted: seq<Item<T>>)
  {
    && (set e | e in announced) == after - contents
    && (set v | v in deleted) == Vanished(contents, snapshot)
    && (forall v :: v in contents ==> OneFate(contents, snapshot, v))
  }

  lemma TableReportedExactly<T(!new)>(contents: set<Item<T>>, m: map<Id, Item<T>>, order: seq<Item<T>>,
                                      announced: seq<Item<T>>, deleted: seq<Item<T>>)
    requires CollisionFree(contents) && Keyed(contents)
    requires CollisionFree(ItemsOf(m)) && Keyed(ItemsOf(m)) && Listing(order, ItemsOf(m))
    requires announced == Drain(contents, order).announced && ReportsOnce(deleted, Drain(contents, order).rest)
    ensures ReportsExactly(contents, Final(contents, ItemsOf(m)), ItemsOf(m), announced, deleted)
  {
    ReportsClosedForm(contents, ItemsOf(m), order);
    AnnouncedAreNew(contents, ItemsOf(m));
    forall v | v in contents ensures OneFate(contents, ItemsOf(m), v) {
      FateWithoutCollisions(contents, ItemsOf(m), v);
    }
  }

  lemma SnapshotKeyed(config: Config, deviceLinks: map<string, string>, linkDump: seq<Message>,
                      addressDump: seq<Message>, from: nat, to: nat, r: PollRecord)
    requires SnapshotBuilt(config, deviceLinks, linkDump, addressDump, from, to, r)
    ensures Keyed(ItemsOf(r.links)) && Keyed(ItemsOf(r.interfaces))
  {
    forall v | v in ItemsOf(r.links) ensures Shares(v.id, v.id) {
      assert Entry(v.id, v.status) in Entries(r.links);
      LinkSpecGood(config, deviceLinks, linkDump, Entry(v.id, v.status));
    }
    forall v | v in ItemsOf(r.interfaces) ensures Shares(v.id, v.id) {
      assert Entry(v.id, v.status) in Entries(r.interfaces);
      InterfaceSpecGood(config, deviceLinks, linkDump, r.linkInterfaces, AddressGroups(addressDump), r.owner,
                        Entry(v.id, v.status), to);
    }
  }

  /** A valid poll announces exactly what is new in each table and reports deleted exactly what shares
      no key with its snapshot; each old item has one fate. */
  lemma ValidPollReports(config: Config, deviceLinks: map<string, string>, linkDump: seq<Message>,
                         addressDump: seq<Message>, from: nat, to: nat, t: Tables, time: nat, t': Tables,
                         r: PollRecord, b: PollReport)
    requires IsInverse(config.links, deviceLinks) && ValidConfig(config)
    requires ValidDump(LinkEntries(deviceLinks, linkDump)) && Good(t, time)
    requires Polled(config, deviceLinks, linkDump, addressDump, from, to, t, t', r)
    requires Reports(t, r.linkOrder, r.interfaceOrder, b)
    ensures ReportsExactly(t.links, t'.links, ItemsOf(r.links), b.links, b.deletedLinks)
    ensures ReportsExactly(t.interfaces, t'.interfaces, ItemsOf(r.interfaces), b.interfaces, b.deletedInterfaces)
  {
    GoodIsKeyed(t, time);
    SnapshotKeyed(config, deviceLinks, linkDump, addressDump, from, to, r);
    ValidSnapshotCollisionFree(config, deviceLinks, linkDump, addressDump, from, to, r);
    ValidPollReconciles(config, deviceLinks, linkDump, addressDump, from, to, t, time, t', r);
    TableReportedExactly(t.links, r.links, r.linkOrder, b.links, b.deletedLinks);
    TableReportedExactly(t.interfaces, r.interfaces, r.interfaceOrder, b.interfaces, b.deletedInterfaces);
  }

  /** What a poll makes of an entry and the item stored under its id, from the statuses and stamps. */
  ghost predicate PairDecided<T(!new)>(v: Item<T>, e: Item<T>, after: set<Item<T>>, announced: seq<Item<T>>) {
    if e.status == v.status || e.refreshed <= v.refreshed + 5_000_000_000 then v in after && e !in announced
    else e in after && e in announced
  }

  ghost predicate EntriesDecided<T(!new)>(contents: set<Item<T>>, after: set<Item<T>>, snapshot: set<Item<T>>,
                                          announced: seq<Item<T>>)
  {
    && (forall v, e :: v in contents && e in snapshot && v.id == e.id ==> PairDecided(v, e, after, announced))
    && (forall e :: e in snapshot && (forall v :: v in contents ==> v.id != e.id) ==> e in after && e in announced)
  }

  /** Nothing is stored or announced but for an entry, and nothing is announced twice. */
  ghost predicate OnlyEntries<T(!new)>(contents: set<Item<T>>, after: set<Item<T>>, snapshot: set<Item<T>>,
                                       announced: seq<Item<T>>)
  {
    && (forall w :: w in after ==> w in snapshot || (w in contents && exists e :: e in snapshot && e.id == w.id))
    && (forall e :: e in announced ==> e in snapshot)
    && (forall j, k :: 0 <= j < k < |announced| ==> announced[j] != announced[k])
  }

  lemma TableDecided<T(!new)>(contents: set<Item<T>>, m: map<Id, Item<T>>, order: seq<Item<T>>)
    requires CollisionFree(contents) && Keyed(contents)
    requires CollisionFree(ItemsOf(m)) && Listing(order, ItemsOf(m))
    ensures EntriesDecided(contents, FinalInOrder(contents, order), ItemsOf(m), Drain(contents, order).announced)
  {
    var snapshot, after, announced := ItemsOf(m), FinalInOrder(contents, order), Drain(contents, order).announced;
    forall v, e | v in contents && e in snapshot && v.id == e.id ensures PairDecided(v, e, after, announced) {
      StoredIdDecided(contents, snapshot, order, v, e);
    }
    forall e | e in snapshot && forall v :: v in contents ==> v.id != e.id ensures e in after && e in announced {
      NewIdAnnounced(contents, snapshot, order, e);
    }
  }

  lemma TableOnlyEntries<T(!new)>(contents: set<Item<T>>, m: map<Id, Item<T>>, order: seq<Item<T>>)
    requires CollisionFree(contents) && CollisionFree(ItemsOf(m)) && Listing(order, ItemsOf(m))
    ensures OnlyEntries(contents, FinalInOrder(contents, order), ItemsOf(m), Drain(contents, order).announced)
  {
    NothingElse(contents, ItemsOf(m), order);
  }

  /** A valid poll keeps a stored item silently when the entry under its id shows the same status or
      comes within five seconds, and stores and announces the entry otherwise. */
  lemma ValidPollDecides(config: Config, deviceLinks: map<string, string>, linkDump: seq<Message>,
                         addressDump: seq<Message>, from: nat, to: nat, t: Tables, time: nat, t': Tables,
                         r: PollRecord, b: PollReport)
    requires IsInverse(config.links, deviceLinks) && ValidConfig(config)
    requires ValidDump(LinkEntries(deviceLinks, linkDump)) && Good(t, time)
    requires Polled(config, deviceLinks, linkDump, addressDump, from, to, t, t', r)
    requires Reports(t, r.linkOrder, r.interfaceOrder, b)
    ensures EntriesDecided(t.links, t'.links, ItemsOf(r.links), b.links)
    ensures EntriesDecided(t.interfaces, t'.interfaces, ItemsOf(r.interfaces), b.interfaces)
    ensures OnlyEntries(t.links, t'.links, ItemsOf(r.links), b.links)
    ensures OnlyEntries(t.interfaces, t'.interfaces, ItemsOf(r.interfaces), b.interfaces)
  {
    GoodIsKeyed(t, time);
    ValidSnapshotCollisionFree(config, deviceLinks, linkDump, addressDump, from, to, r);
    TableDecided(t.links, r.links, r.linkOrder);
    TableDecided(t.interfaces, r.interfaces, r.interfaceOrder);
    TableOnlyEntries(t.links, r.links, r.linkOrder);
    TableOnlyEntries(t.interfaces, r.interfaces, r.interfaceOrder);
  }

  // ----- Convergence -----

  lemma LateSnapshotWins<T(!new)>(contents: set<Item<T>>, m: map<Id, Item<T>>, from: nat, to: nat,
                                  entries: set<Entry<T>>)
    requires Collected(m, from, to, entries)
    requires forall v :: v in contents ==> v.refreshed + HOLD_PERIOD < from
    ensures EntriesOf(Final(contents, ItemsOf(m))) == entries
  {
    var final := Final(contents, ItemsOf(m));
    forall e | e in ItemsOf(m)
      ensures Outcome(contents, e).id == e.id && Outcome(contents, e).status == e.status
    {
    }
    forall id | id in m ensures Entry(m[id].id, m[id].status) in EntriesOf(final) {
      assert Outcome(contents, m[id]) in final;
    }
    forall v | v in final ensures Entry(v.id, v.status) in entries {
      var id :| id in m && v == Outcome(contents, m[id]);
      assert Entry(m[id].id, m[id].status) in entries;
    }
  }

  /** From any good state, a poll that starts more than a hold period after the last change leaves
      each id and status equal to what the dumps and the configuration say. */
  lemma QuietPollConverges(config: Config, deviceLinks: map<string, string>, linkDump: seq<Message>,
                           addressDump: seq<Message>, last: nat, from: nat, to: nat, t: Tables, t': Tables,
                           r: PollRecord)
    requires IsInverse(config.links, deviceLinks) && ValidConfig(config)
    requires ValidDump(LinkEntries(deviceLinks, linkDump))
    requires Good(t, last) && last + HOLD_PERIOD < from
    requires Polled(config, deviceLinks, linkDump, addressDump, from, to, t, t', r)
    ensures var es := LinkEntries(deviceLinks, linkDump);
            && EntriesOf(t'.links) == LinkSpec(config, es)
            && EntriesOf(t'.interfaces)
               == InterfaceSpec(config, r.linkInterfaces, es, AddressGroups(addressDump), r.owner)
  {
    var es := LinkEntries(deviceLinks, linkDump);
    ValidPollReconciles(config, deviceLinks, linkDump, addressDump, from, to, t, last, t', r);
    LateSnapshotWins(t.links, r.links, from, to, LinkSpec(config, es));
    LateSnapshotWins(t.interfaces, r.interfaces, from, to,
                     InterfaceSpec(config, r.linkInterfaces, es, AddressGroups(addressDump), r.owner));
  }

  /** So each dumped link is stored as the kernel's message reports it. */
  lemma QuietPollShowsLink(config: Config, deviceLinks: map<string, string>, linkDump: seq<Message>,
                           addressDump: seq<Message>, last: nat, from: nat, to: nat, t: Tables, t': Tables,
                           r: PollRecord, k: nat, i: nat, s: LinkStatus)
    requires IsInverse(config.links, deviceLinks) && ValidConfig(config) && DistinctReports(deviceLinks, linkDump)
    requires Good(t, last) && last + HOLD_PERIOD < from
    requires Polled(config, deviceLinks, linkDump, addressDump, from, to, t, t', r)
    requires k < |linkDump| && ReportsLink(deviceLinks, linkDump[k], i, s)
    ensures exists v :: v in t'.links && v.id == Id(Some(i), s.name, Some(s.device)) && v.status == s
  {
    DistinctIsValid(deviceLinks, linkDump);
    QuietPollConverges(config, deviceLinks, linkDump, addressDump, last, from, to, t, t', r);
    DumpedLinkShown(config, deviceLinks, linkDump, k, i, s);
    assert Entry(Id(Some(i), s.name, Some(s.device)), s) in EntriesOf(t'.links);
  }

  /** Two polls over the same dumps with nothing in between, the second more than a hold period after
      the first ended: whatever was stored before, the tables then show what both polls read. */
  lemma TwoPollsConverge(config: Config, deviceLinks: map<string, string>, linkDump: seq<Message>,
                         addressDump: seq<Message>,
                         t0: Tables, from: nat, to: nat, t1: Tables, r: PollRecord,
                         from': nat, to': nat, t2: Tables, r': PollRecord)
    requires IsInverse(config.links, deviceLinks) && ValidConfig(config)
    requires ValidDump(LinkEntries(deviceLinks, linkDump))
    requires Good(t0, from) && from <= to && to + HOLD_PERIOD < from'
    requires Polled(config, deviceLinks, linkDump, addressDump, from, to, t0, t1, r)
    requires Polled(config, deviceLinks, linkDump, addressDump, from', to', t1, t2, r')
    ensures EntriesOf(t2.links) == Entries(r.links) == Entries(r'.links)
    ensures EntriesOf(t2.interfaces) == Entries(r.interfaces) == Entries(r'.interfaces)
  {
    PollKeepsGood(config, deviceLinks, linkDump, addressDump, from, to, t0, from, t1, to, r);
    QuietPollConverges(config, deviceLinks, linkDump, addressDump, to, from', to', t1, t2, r');
    SnapshotDetermined(config, linkDump, AddressGroups(addressDump), deviceLinks, r.linkInterfaces, r.owner,
                       deviceLinks, r'.linkInterfaces, r'.owner);
  }

  // ----- Polls-only runs are traces of reconciliations, so their changes are debounced -----

  ghost predicate PollRun(config: Config, deviceLinks: map<string, string>, steps: seq<Step>, states: seq<Tables>,
                          times: seq<nat>, records: seq<PollRecord>)
  {
    && IsInverse(config.links, deviceLinks) && ValidConfig(config)
    && |states| == |times| == |steps| + 1 && |records| == |steps| && Good(states[0], times[0])
    && forall i :: 0 <= i < |steps| ==>
         && steps[i].Poll? && times[i] <= times[i + 1]
         && ValidDump(LinkEntries(deviceLinks, steps[i].linkDump))
         && Polled(config, deviceLinks, steps[i].linkDump, steps[i].addressDump, times[i], times[i + 1],
                   states[i], states[i + 1], records[i])
  }

  ghost function LinkTables(states: seq<Tables>): seq<set<Item<LinkStatus>>> {
    seq(|states|, i requires 0 <= i < |states| => states[i].links)
  }

  ghost function LinkSnapshots(records: seq<PollRecord>): seq<set<Item<LinkStatus>>> {
    seq(|records|, i requires 0 <= i < |records| => ItemsOf(records[i].links))
  }

  ghost function InterfaceTables(states: seq<Tables>): seq<set<Item<InterfaceStatus>>> {
    seq(|states|, i requires 0 <= i < |states| => states[i].interfaces)
  }

  ghost function InterfaceSnapshots(records: seq<PollRecord>): seq<set<Item<InterfaceStatus>>> {
    seq(|records|, i requires 0 <= i < |records| => ItemsOf(records[i].interfaces))
  }

  lemma {:induction false} PollRunGood(config: Config, deviceLinks: map<string, string>, steps: seq<Step>,
                                      states: seq<Tables>, times: seq<nat>, records: seq<PollRecord>, i: nat)
    requires PollRun(config, deviceLinks, steps, states, times, records) && i < |states|
    ensures Good(states[i], times[i])
  {
    if i > 0 {
      PollRunGood(config, deviceLinks, steps, states, times, records, i - 1);
      PollKeepsGood(config, deviceLinks, steps[i - 1].linkDump, steps[i - 1].addressDump, times[i - 1], times[i],
                    states[i - 1], times[i - 1], states[i], times[i], records[i - 1]);
    }
  }

  lemma PollRunStep(config: Config, deviceLinks: map<string, string>, steps: seq<Step>,
                    states: seq<Tables>, times: seq<nat>, records: seq<PollRecord>, i: nat)
    requires PollRun(config, deviceLinks, steps, states, times, records) && i < |steps|
    ensures CollisionFree(ItemsOf(records[i].links)) && CollisionFree(ItemsOf(records[i].interfaces))
    ensures states[i + 1].links == Final(states[i].links, ItemsOf(records[i].links))
    ensures states[i + 1].interfaces == Final(states[i].interfaces, ItemsOf(records[i].interfaces))
  {
    PollRunGood(config, deviceLinks, steps, states, times, records, i);
    ValidSnapshotCollisionFree(config, deviceLinks, steps[i].linkDump, steps[i].addressDump, times[i], times[i + 1],
                               records[i]);
    ValidPollReconciles(config, deviceLinks, steps[i].linkDump, steps[i].addressDump, times[i], times[i + 1],
                        states[i], times[i], states[i + 1], records[i]);
  }

  lemma PollRunIsTrace(config: Config, deviceLinks: map<string, string>, steps: seq<Step>,
                       states: seq<Tables>, times: seq<nat>, records: seq<PollRecord>)
    requires PollRun(config, deviceLinks, steps, states, times, records)
    ensures Trace(LinkTables(states), LinkSnapshots(records))
    ensures Trace(InterfaceTables(states), InterfaceSnapshots(records))
  {
    forall i | 0 <= i < |steps|
      ensures CollisionFree(ItemsOf(records[i].links)) && CollisionFree(ItemsOf(records[i].interfaces))
      ensures states[i + 1].links == Final(states[i].links, ItemsOf(records[i].links))
      ensures states[i + 1].interfaces == Final(states[i].interfaces, ItemsOf(records[i].interfaces))
    {
      PollRunStep(config, deviceLinks, steps, states, times, records, i);
    }
  }

  /** In a run of polls a link that stays in every snapshot changes its status n times only in more
      than n hold periods. */
  lemma LinkStatusDebounced(config: Config, deviceLinks: map<string, string>, steps: seq<Step>, states: seq<Tables>,
                            times: seq<nat>, records: seq<PollRecord>, id: Id)
    requires PollRun(config, deviceLinks, steps, states, times, records)
    requires Shares(id, id) && id in Ids(states[0].links)
    requires forall i :: 0 <= i < |records| ==> id in Ids(ItemsOf(records[i].links))
    ensures StoredThroughout(LinkTables(states), id)
    ensures var n := StatusChanges(LinkTables(states), id);
            n > 0 ==> Holder(states[0].links, id).refreshed + n * HOLD_PERIOD
                      < Holder(states[|states| - 1].links, id).refreshed <= times[|times| - 1]
  {
    PollRunIsTrace(config, deviceLinks, steps, states, times, records);
    Debounce(LinkTables(states), LinkSnapshots(records), id);
    PollRunGood(config, deviceLinks, steps, states, times, records, |states| - 1);
  }

  /** And so does an interface, for which a change of addresses counts as well. */
  lemma InterfaceStatusDebounced(config: Config, deviceLinks: map<string, string>, steps: seq<Step>,
                                 states: seq<Tables>,
                                 times: seq<nat>, records: seq<PollRecord>, id: Id)
    requires PollRun(config, deviceLinks, steps, states, times, records)
    requires Shares(id, id) && id in Ids(states[0].interfaces)
    requires forall i :: 0 <= i < |records| ==> id in Ids(ItemsOf(records[i].interfaces))
    ensures StoredThroughout(InterfaceTables(states), id)
    ensures var n := StatusChanges(InterfaceTables(states), id);
            n > 0 ==> Holder(states[0].interfaces, id).refreshed + n * HOLD_PERIOD
                      < Holder(states[|states| - 1].interfaces, id).refreshed <= times[|times| - 1]
  {
    PollRunIsTrace(config, deviceLinks, steps, states, times, records);
    Debounce(InterfaceTables(states), InterfaceSnapshots(records), id);
    PollRunGood(config, deviceLinks, steps, states, times, records, |states| - 1);
  }
}

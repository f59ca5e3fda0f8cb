/** The steps of the interface manager on the contents of its two tables, and its runs. */
module InterfaceEvents {
  import opened Wrappers
  import opened NetworkModel
  import opened NetlinkProcessor
  import opened Addresses
  import opened Reconciliation
  import opened Snapshot
  import opened SnapshotTheorems

  datatype Tables = Tables(links: set<Item<LinkStatus>>, interfaces: set<Item<InterfaceStatus>>)

  // ----- Kernel events -----

  /** The interface on `index`, if it stands on `device`. */
  ghost function StandingOn(t: Tables, index: nat, device: string): Option<Item<InterfaceStatus>> {
    var f := FindByIndex(t.interfaces, index);
    if f.Some? && f.value.status.link.device == device then f else None
  }

  ghost function Relinked(v: Item<InterfaceStatus>, index: Option<nat>, link: LinkStatus,
                          now: nat): Item<InterfaceStatus>
  {
    Item(Id(index, v.status.name, Some(v.status.link.device)),
         InterfaceStatus(v.status.name, v.status.addresses, link), now)
  }

  ghost function AfterNewLink(t: Tables, index: nat, s: LinkStatus, t1: nat, t2: nat): Tables {
    var links := Put(t.links, Item(LinkId(index, s), s, t1));
    var v := StandingOn(t, index, s.device);
    Tables(links, if v.None? then t.interfaces else Put(t.interfaces, Relinked(v.value, Some(index), s, t2)))
  }

  /** The status a link is left with when its device went away. */
  ghost function GoneStatus(s: LinkStatus): LinkStatus {
    if s.name.Some? then LinkStatus(s.name, s.device, NotFound) else s
  }

  ghost function LinksWithout(links: set<Item<LinkStatus>>, s: LinkStatus, t1: nat): set<Item<LinkStatus>> {
    var id := Id(None, s.name, Some(s.device));
    if s.name.Some? then Put(links, Item(id, GoneStatus(s), t1)) else Without(links, id)
  }

  ghost function InterfacesWithout(t: Tables, index: nat, s: LinkStatus, t2: nat): set<Item<InterfaceStatus>> {
    var v := StandingOn(t, index, s.device);
    if v.None? then t.interfaces
    else
      var w := Relinked(v.value, None, GoneStatus(s), t2);
      if w.id.name.Some? then Put(t.interfaces, w) else Without(t.interfaces, w.id)
  }

  /** A named link that went away stays as a link without an index; an unnamed one is removed. */
  ghost function AfterDelLink(t: Tables, index: nat, s: LinkStatus, t1: nat, t2: nat): Tables {
    Tables(LinksWithout(t.links, s, t1), InterfacesWithout(t, index, s, t2))
  }

  ghost function WithAddresses(v: Item<InterfaceStatus>, addresses: seq<IpAddress>, now: nat): Item<InterfaceStatus> {
    Item(v.id, InterfaceStatus(v.status.name, addresses, v.status.link), now)
  }

  ghost function AfterNewAddress(t: Tables, index: nat, a: IpAddress, now: nat): Tables {
    var v := FindByIndex(t.interfaces, index);
    if v.None? then t
    else t.(interfaces := Put(t.interfaces, WithAddresses(v.value, Sort(v.value.status.addresses + [a]), now)))
  }

  ghost function AfterDelAddress(t: Tables, index: nat, a: IpAddress, now: nat): Tables {
    var v := FindByIndex(t.interfaces, index);
    if v.None? then t
    else t.(interfaces := Put(t.interfaces, WithAddresses(v.value, RemoveFirst(v.value.status.addresses, a), now)))
  }

  ghost function AfterMessage(deviceLinks: map<string, string>, t: Tables, m: Message, t1: nat, t2: nat): Tables {
    match m
    case NewLink(_, _, _) =>
      var r := LinkReport(deviceLinks, m);
      if r.None? then t else AfterNewLink(t, r.value.0, r.value.1, t1, t2)
    case DelLink(_, _, _) =>
      var r := LinkReport(deviceLinks, m);
      if r.None? then t else AfterDelLink(t, r.value.0, r.value.1, t1, t2)
    case NewAddress(_, _, _, _) =>
      var r := AddressReport(m);
      if r.None? then t else AfterNewAddress(t, r.value.0, r.value.1, t1)
    case DelAddress(_, _, _, _) =>
      var r := AddressReport(m);
      if r.None? then t else AfterDelAddress(t, r.value.0, r.value.1, t1)
    case OtherMessage => t
  }

  // ----- Polls -----

  /** The choices a poll made: the snapshot it built and the orders it drained it in. */
  datatype PollRecord = PollRecord(
    links: map<Id, Item<LinkStatus>>, interfaces: map<Id, Item<InterfaceStatus>>,
    linkInterfaces: map<string, string>, owner: map<nat, string>,
    linkOrder: seq<Item<LinkStatus>>, interfaceOrder: seq<Item<InterfaceStatus>>)

  ghost function ItemsOf<T>(m: map<Id, Item<T>>): set<Item<T>> {
    set id | id in m :: m[id]
  }

  /** The snapshot was built from the dumps between `from` and `to`. */
  ghost predicate SnapshotBuilt(config: Config, deviceLinks: map<string, string>, linkDump: seq<Message>,
                                addressDump: seq<Message>, from: nat, to: nat, r: PollRecord)
  {
    var es, groups := LinkEntries(deviceLinks, linkDump), AddressGroups(addressDump);
    && IsInverse(config.interfaces, r.linkInterfaces) && Owners(config, ByLinkName(es), groups, r.owner)
    && Collected(r.links, from, to, LinkSpec(config, es))
    && Collected(r.interfaces, from, to, InterfaceSpec(config, r.linkInterfaces, es, groups, r.owner))
  }

  /** Both tables were reconciled with a snapshot, each in some order. */
  ghost predicate Reconciled(links: map<Id, Item<LinkStatus>>, interfaces: map<Id, Item<InterfaceStatus>>,
                             linkOrder: seq<Item<LinkStatus>>, interfaceOrder: seq<Item<InterfaceStatus>>,
                             t: Tables, t': Tables)
  {
    && Listing(linkOrder, ItemsOf(links)) && Listing(interfaceOrder, ItemsOf(interfaces))
    && t' == Tables(FinalInOrder(t.links, linkOrder), FinalInOrder(t.interfaces, interfaceOrder))
  }

  ghost predicate Polled(config: Config, deviceLinks: map<string, string>, linkDump: seq<Message>,
                         addressDump: seq<Message>, from: nat, to: nat, t: Tables, t': Tables, r: PollRecord)
  {
    && SnapshotBuilt(config, deviceLinks, linkDump, addressDump, from, to, r)
    && Reconciled(r.links, r.interfaces, r.linkOrder, r.interfaceOrder, t, t')
  }

  /** A poll in its two halves: the snapshot is built, and later it is reconciled. */
  lemma PolledInTwo(config: Config, deviceLinks: map<string, string>, linkDump: seq<Message>,
                    addressDump: seq<Message>, from: nat, to: nat, t: Tables, t': Tables, r: PollRecord,
                    linkOrder: seq<Item<LinkStatus>>, interfaceOrder: seq<Item<InterfaceStatus>>)
    requires SnapshotBuilt(config, deviceLinks, linkDump, addressDump, from, to, r)
    requires Reconciled(r.links, r.interfaces, linkOrder, interfaceOrder, t, t')
    ensures Polled(config, deviceLinks, linkDump, addressDump, from, to, t, t',
                   r.(linkOrder := linkOrder, interfaceOrder := interfaceOrder))
  {
  }

  datatype PollReport = PollReport(
    deletedLinks: seq<Item<LinkStatus>>, links: seq<Item<LinkStatus>>,
    deletedInterfaces: seq<Item<InterfaceStatus>>, interfaces: seq<Item<InterfaceStatus>>)

  /** The announced items are the drain's, the deleted ones what it left in the table. */
  ghost predicate Reports(t: Tables, linkOrder: seq<Item<LinkStatus>>, interfaceOrder: seq<Item<InterfaceStatus>>,
                          b: PollReport)
  {
    && b.links == Drain(t.links, linkOrder).announced
    && ReportsOnce(b.deletedLinks, Drain(t.links, linkOrder).rest)
    && b.interfaces == Drain(t.interfaces, interfaceOrder).announced
    && ReportsOnce(b.deletedInterfaces, Drain(t.interfaces, interfaceOrder).rest)
  }

  /** A poll whose snapshot was complete by `time`. It may have been stamped before messages that the
      listener handled while the poll waited for the tables. */
  ghost predicate PolledBy(config: Config, deviceLinks: map<string, string>, linkDump: seq<Message>,
                           addressDump: seq<Message>, t: Tables, t': Tables, time: nat)
  {
    exists from: nat, to: nat, r ::
      from <= to <= time && Polled(config, deviceLinks, linkDump, addressDump, from, to, t, t', r)
  }

  // ----- Runs -----

  datatype Step = Receive(message: Message) | Poll(linkDump: seq<Message>, addressDump: seq<Message>) | Idle

  ghost predicate Next(config: Config, deviceLinks: map<string, string>, step: Step,
                       t: Tables, time: nat, t': Tables, time': nat)
  {
    && time <= time'
    && match step
       case Receive(m) => exists t1, t2 :: time <= t1 <= t2 <= time' && t' == AfterMessage(deviceLinks, t, m, t1, t2)
       case Poll(links, addresses) => PolledBy(config, deviceLinks, links, addresses, t, t', time')
       case Idle => t' == t
  }

  ghost predicate Run(config: Config, deviceLinks: map<string, string>, steps: seq<Step>,
                      states: seq<Tables>, times: seq<nat>)
  {
    && IsInverse(config.links, deviceLinks)
    && |states| == |times| == |steps| + 1 && states[0] == Tables({}, {})
    && forall i :: 0 <= i < |steps| ==>
         Next(config, deviceLinks, steps[i], states[i], times[i], states[i + 1], times[i + 1])
  }

  // ----- What holds in every reachable state -----

  ghost predicate GoodLink(v: Item<LinkStatus>, time: nat) {
    v.refreshed <= time && v.id.name == v.status.name && v.id.device == Some(v.status.device)
  }

  /** The id agrees with the status, a missing device shows only without an index, and the addresses
      are sorted. */
  ghost predicate GoodInterface(v: Item<InterfaceStatus>, time: nat) {
    && v.refreshed <= time
    && v.id.name == v.status.name
    && (v.id.device == Some(v.status.link.device)
        || (v.id.device.None? && v.id.index.None? && v.id.name.Some?))
    && Sorted(v.status.addresses)
  }

  ghost predicate Good(t: Tables, time: nat) {
    && CollisionFree(t.links) && (forall v :: v in t.links ==> GoodLink(v, time))
    && CollisionFree(t.interfaces) && (forall v :: v in t.interfaces ==> GoodInterface(v, time))
  }

  lemma FoundIsGood(t: Tables, time: nat, index: nat)
    requires Good(t, time)
    ensures var v := FindByIndex(t.interfaces, index);
            v.Some? ==> GoodInterface(v.value, time) && v.value.id.device == Some(v.value.status.link.device)
  {
  }

  lemma NewLinkKeepsGood(t: Tables, time: nat, index: nat, s: LinkStatus, t1: nat, t2: nat)
    requires Good(t, time) && time <= t1 <= t2
    ensures Good(AfterNewLink(t, index, s, t1, t2), t2)
  {
    FoundIsGood(t, time, index);
  }

  lemma DelLinkKeepsGood(t: Tables, time: nat, index: nat, s: LinkStatus, t1: nat, t2: nat)
    requires Good(t, time) && time <= t1 <= t2
    ensures Good(AfterDelLink(t, index, s, t1, t2), t2)
  {
    FoundIsGood(t, time, index);
  }

  lemma PutKeepsGood(t: Tables, time: nat, item: Item<InterfaceStatus>, now: nat)
    requires Good(t, time) && time <= now && GoodInterface(item, now)
    ensures Good(t.(interfaces := Put(t.interfaces, item)), now)
  {
  }

  lemma AddressKeepsGood(t: Tables, time: nat, index: nat, a: IpAddress, now: nat)
    requires Good(t, time) && time <= now
    ensures Good(AfterNewAddress(t, index, a, now), now)
    ensures Good(AfterDelAddress(t, index, a, now), now)
  {
    FoundIsGood(t, time, index);
    LaterStillGood(t, time, now);
    var v := FindByIndex(t.interfaces, index);
    if v.Some? {
      var list := v.value.status.addresses;
      SortSorts(list + [a]);
      PutKeepsGood(t, time, WithAddresses(v.value, Sort(list + [a]), now), now);
      RemoveFirstKeepsSorted(list, a);
      PutKeepsGood(t, time, WithAddresses(v.value, RemoveFirst(list, a), now), now);
    }
  }

  lemma LaterStillGood(t: Tables, time: nat, time': nat)
    requires Good(t, time) && time <= time'
    ensures Good(t, time')
  {
  }

  lemma MessageKeepsGood(deviceLinks: map<string, string>, t: Tables, time: nat, m: Message, t1: nat, t2: nat)
    requires Good(t, time) && time <= t1 <= t2
    ensures Good(AfterMessage(deviceLinks, t, m, t1, t2), t2)
  {
    LaterStillGood(t, time, t2);
    match m
    case NewLink(_, _, _) =>
      if LinkReport(deviceLinks, m).Some? {
        var (index, s) := LinkReport(deviceLinks, m).value;
        NewLinkKeepsGood(t, time, index, s, t1, t2);
      }
    case DelLink(_, _, _) =>
      if LinkReport(deviceLinks, m).Some? {
        var (index, s) := LinkReport(deviceLinks, m).value;
        DelLinkKeepsGood(t, time, index, s, t1, t2);
      }
    case NewAddress(_, _, _, _) =>
      if AddressReport(m).Some? {
        var (index, a) := AddressReport(m).value;
        AddressKeepsGood(t, time, index, a, t1);
        LaterStillGood(AfterNewAddress(t, index, a, t1), t1, t2);
      }
    case DelAddress(_, _, _, _) =>
      if AddressReport(m).Some? {
        var (index, a) := AddressReport(m).value;
        AddressKeepsGood(t, time, index, a, t1);
        LaterStillGood(AfterDelAddress(t, index, a, t1), t1, t2);
      }
    case OtherMessage =>
  }

  // Every snapshot entry is of the right form, whatever the configuration and the dumps.

  lemma LinkSpecGood(config: Config, deviceLinks: map<string, string>, dump: seq<Message>, e: Entry<LinkStatus>)
    requires e in LinkSpec(config, LinkEntries(deviceLinks, dump))
    ensures e.id.name == e.status.name && e.id.device == Some(e.status.device)
  {
    var es := LinkEntries(deviceLinks, dump);
    LinkEntriesFromKernel(deviceLinks, dump);
    FoldsHoldEntries(es);
  }

  lemma InterfaceSpecGood(config: Config, deviceLinks: map<string, string>, dump: seq<Message>,
                          linkInterfaces: map<string, string>, groups: map<nat, seq<IpAddress>>,
                          owner: map<nat, string>, e: Entry<InterfaceStatus>, now: nat)
    requires e in InterfaceSpec(config, linkInterfaces, LinkEntries(deviceLinks, dump), groups, owner)
    ensures GoodInterface(Item(e.id, e.status, now), now)
  {
    var es := LinkEntries(deviceLinks, dump);
    LinkEntriesFromKernel(deviceLinks, dump);
    FoldsHoldEntries(es);
    var s := Origin(config, linkInterfaces, es, groups, owner, e);
    match s
    case Configured(name) =>
      var n := config.interfaces[name];
      if n in ByLinkName(es) {
        assert FromKernel(ByLinkName(es)[n]);
        var i := ByLinkName(es)[n].id.index.value;
        if i in groups {
          SortSorts(groups[i]);
        }
      }
    case Leftover(i) =>
      SortSorts(groups[i]);
  }

  lemma PollKeepsGood(config: Config, deviceLinks: map<string, string>, linkDump: seq<Message>,
                      addressDump: seq<Message>,
                      from: nat, to: nat, t: Tables, time: nat, t': Tables, time': nat, r: PollRecord)
    requires Good(t, time) && time <= time' && to <= time'
    requires Polled(config, deviceLinks, linkDump, addressDump, from, to, t, t', r)
    ensures Good(t', time')
  {
    FinalFromEither(t.links, r.linkOrder);
    FinalFromEither(t.interfaces, r.interfaceOrder);
    forall v | v in t'.links ensures GoodLink(v, time') {
      if v !in t.links {
        var id :| id in r.links && v == r.links[id];
        LinkSpecGood(config, deviceLinks, linkDump, Entry(v.id, v.status));
      }
    }
    forall v | v in t'.interfaces ensures GoodInterface(v, time') {
      if v !in t.interfaces {
        var id :| id in r.interfaces && v == r.interfaces[id];
        InterfaceSpecGood(config, deviceLinks, linkDump, r.linkInterfaces, AddressGroups(addressDump), r.owner,
                          Entry(v.id, v.status), time');
      }
    }
  }

  lemma StepKeepsGood(config: Config, deviceLinks: map<string, string>, step: Step,
                      t: Tables, time: nat, t': Tables, time': nat)
    requires Good(t, time) && Next(config, deviceLinks, step, t, time, t', time')
    ensures Good(t', time')
  {
    match step
    case Receive(m) =>
      var t1, t2 :| time <= t1 <= t2 <= time' && t' == AfterMessage(deviceLinks, t, m, t1, t2);
      MessageKeepsGood(deviceLinks, t, time, m, t1, t2);
      LaterStillGood(t', t2, time');
    case Poll(links, addresses) =>
      var from: nat, to: nat, r :|
        from <= to <= time' && Polled(config, deviceLinks, links, addresses, from, to, t, t', r);
      PollKeepsGood(config, deviceLinks, links, addresses, from, to, t, time, t', time', r);
    case Idle =>
      LaterStillGood(t, time, time');
  }

  lemma RunStep(config: Config, deviceLinks: map<string, string>, steps: seq<Step>,
                states: seq<Tables>, times: seq<nat>, i: nat)
    requires Run(config, deviceLinks, steps, states, times) && i < |steps|
    ensures Next(config, deviceLinks, steps[i], states[i], times[i], states[i + 1], times[i + 1])
  {
  }

  lemma RunAppends(config: Config, deviceLinks: map<string, string>, steps: seq<Step>, states: seq<Tables>,
                   times: seq<nat>, step: Step, t: Tables, time: nat)
    requires Run(config, deviceLinks, steps, states, times)
    requires Next(config, deviceLinks, step, states[|steps|], times[|steps|], t, time)
    ensures Run(config, deviceLinks, steps + [step], states + [t], times + [time])
  {
    var n := |steps|;
    var states', times' := states + [t], times + [time];
    forall i | 0 <= i <= n
      ensures Next(config, deviceLinks, (steps + [step])[i], states'[i], times'[i], states'[i + 1], times'[i + 1])
    {
      if i < n {
        RunStep(config, deviceLinks, steps, states, times, i);
        assert (steps + [step])[i] == steps[i] && states'[i] == states[i] && states'[i + 1] == states[i + 1];
        assert times'[i] == times[i] && times'[i + 1] == times[i + 1];
      } else {
        assert (steps + [step])[i] == step && states'[i] == states[n] && states'[i + 1] == t;
        assert times'[i] == times[n] && times'[i + 1] == time;
      }
    }
  }

  /** Over every run, of any steps in any order and any configuration, every state is good. */
  lemma {:induction false} RunsStayGood(config: Config, deviceLinks: map<string, string>, steps: seq<Step>,
                                       states: seq<Tables>, times: seq<nat>, i: nat)
    requires Run(config, deviceLinks, steps, states, times) && i < |states|
    ensures Good(states[i], times[i])
  {
    if i > 0 {
      RunsStayGood(config, deviceLinks, steps, states, times, i - 1);
      RunStep(config, deviceLinks, steps, states, times, i - 1);
      StepKeepsGood(config, deviceLinks, steps[i - 1], states[i - 1], times[i - 1], states[i], times[i]);
    }
  }

  // ----- What single events do in a good state -----

  /** An address added to an indexed interface and then deleted leaves every table as it was, but
      for that interface's stamp. */
  lemma AddressAddedAndDeleted(t: Tables, time: nat, index: nat, a: IpAddress, t1: nat, t2: nat)
    requires Good(t, time)
    ensures var v := FindByIndex(t.interfaces, index);
            AfterDelAddress(AfterNewAddress(t, index, a, t1), index, a, t2)
            == if v.None? then t
               else t.(interfaces := t.interfaces - {v.value} + {v.value.(refreshed := t2)})
  {
    var found := FindByIndex(t.interfaces, index);
    if found.Some? {
      var v := found.value;
      var w := WithAddresses(v, Sort(v.status.addresses + [a]), t1);
      var mid := AfterNewAddress(t, index, a, t1);
      PutSameId(t.interfaces, v, w);
      assert CollisionFree(mid.interfaces) by { PutKeepsCollisionFree(t.interfaces, w); }
      assert FindByIndex(mid.interfaces, index) == Some(w) by { OneHolderOfIndex(mid.interfaces, w, index); }
      AddThenDelete(v.status.addresses, a);
      PutSameId(mid.interfaces, w, v.(refreshed := t2));
      assert mid.interfaces - {w} == t.interfaces - {v} by {
        SameIdSameItem(t.interfaces, v, w);
      }
    }
  }

  lemma SameIdSameItem<T>(contents: set<Item<T>>, v: Item<T>, w: Item<T>)
    requires CollisionFree(contents) && v in contents && Shares(v.id, v.id) && w.id == v.id
    ensures w == v || w !in contents
  {
  }

  lemma PutSameId<T>(contents: set<Item<T>>, v: Item<T>, w: Item<T>)
    requires CollisionFree(contents) && v in contents && Shares(v.id, v.id) && w.id == v.id
    ensures Put(contents, w) == contents - {v} + {w}
  {
  }

  lemma OneHolderOfIndex<T>(contents: set<Item<T>>, v: Item<T>, index: nat)
    requires CollisionFree(contents) && v in contents && v.id.index == Some(index)
    ensures FindByIndex(contents, index) == Some(v)
  {
  }

  /** After a new link was reported it is the one link on its index, no other link shares a key with
      it, and an interface that stood on it shows its status and keeps its addresses; links and
      interfaces without a key in common stay. */
  lemma NewLinkShows(t: Tables, time: nat, index: nat, s: LinkStatus, t1: nat, t2: nat)
    requires Good(t, time)
    ensures var t', new' := AfterNewLink(t, index, s, t1, t2), Item(LinkId(index, s), s, t1);
            && FindByIndex(t'.links, index) == Some(new')
            && (forall l :: l in t'.links && l != new' ==> l in t.links && !Shares(l.id, new'.id))
            && (forall l :: l in t.links && !Shares(l.id, new'.id) ==> l in t'.links)
            && (StandingOn(t, index, s.device).Some? ==>
                  var v := StandingOn(t, index, s.device).value;
                  var w := FindByIndex(t'.interfaces, index);
                  && w.Some? && w.value.id == v.id
                  && w.value.status == InterfaceStatus(v.status.name, v.status.addresses, s)
                  && t'.interfaces - {w.value} == t.interfaces - {v, w.value})
            && (StandingOn(t, index, s.device).None? ==> t'.interfaces == t.interfaces)
  {
    var t', new' := AfterNewLink(t, index, s, t1, t2), Item(LinkId(index, s), s, t1);
    OneHolderOfIndex(t'.links, new', index);
    if StandingOn(t, index, s.device).Some? {
      FoundIsGood(t, time, index);
      var v := StandingOn(t, index, s.device).value;
      var w := Relinked(v, Some(index), s, t2);
      PutSameId(t.interfaces, v, w);
      PutKeepsCollisionFree(t.interfaces, w);
      OneHolderOfIndex(t'.interfaces, w, index);
    }
  }

  /** After a device went away no link on that device has an index, and no interface that stood on
      it is indexed: a named one stays with its addresses, an unnamed one is gone. */
  lemma DelLinkPurges(t: Tables, time: nat, index: nat, s: LinkStatus, t1: nat, t2: nat)
    requires Good(t, time)
    ensures var t' := AfterDelLink(t, index, s, t1, t2);
            && (forall l :: l in t'.links && l.status.device == s.device ==>
                  l.id.index.None? && l.status.state == NotFound)
            && (StandingOn(t, index, s.device).Some? ==>
                  var v := StandingOn(t, index, s.device).value;
                  && (forall w :: w in t'.interfaces ==> w.id.index != Some(index))
                  && (v.status.name.Some? ==>
                        exists w :: w in t'.interfaces && w.id.name == v.status.name
                                    && w.status.addresses == v.status.addresses && w.status.link == GoneStatus(s))
                  && (v.status.name.None? ==>
                        forall w :: w in t'.interfaces ==> w.id.device != Some(s.device)))
  {
    var found := StandingOn(t, index, s.device);
    if found.Some? {
      FoundIsGood(t, time, index);
      var w := Relinked(found.value, None, GoneStatus(s), t2);
      assert w.id.name.Some? ==> w in AfterDelLink(t, index, s, t1, t2).interfaces;
    }
  }

  /** It changes nothing else: a link without the name or the device stays, the only link it can add is
      the unindexed one, and every interface but the one that stood on the device stays as it was. */
  lemma DelLinkKeepsOthers(t: Tables, time: nat, index: nat, s: LinkStatus, t1: nat, t2: nat)
    requires Good(t, time)
    ensures var t', id := AfterDelLink(t, index, s, t1, t2), Id(None, s.name, Some(s.device));
            && (s.name.Some? ==> Item(id, LinkStatus(s.name, s.device, NotFound), t1) in t'.links)
            && (forall l :: l in t'.links && l !in t.links ==>
                  s.name.Some? && l == Item(id, LinkStatus(s.name, s.device, NotFound), t1))
            && (forall l :: l in t.links && !Shares(l.id, id) ==> l in t'.links)
            && (StandingOn(t, index, s.device).None? ==> t'.interfaces == t.interfaces)
            && (StandingOn(t, index, s.device).Some? ==>
                  forall w :: w in t.interfaces && w != StandingOn(t, index, s.device).value ==> w in t'.interfaces)
  {
    var found := StandingOn(t, index, s.device);
    if found.Some? {
      FoundIsGood(t, time, index);
      var v, w := found.value, Relinked(found.value, None, GoneStatus(s), t2);
      forall u | u in t.interfaces && u != v ensures !Shares(u.id, w.id) {
        assert !Shares(u.id, v.id);
      }
    }
  }
}

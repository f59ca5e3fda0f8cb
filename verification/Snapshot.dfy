/** The snapshot a poll builds from the two kernel dumps and the configuration. */
module Snapshot {
  import opened Wrappers
  import opened NetworkModel
  import opened NetlinkProcessor
  import opened Addresses

  /** The monotonic clock every stored item is stamped with. */
  class Clock {
    var time: nat

    constructor ()
    {
      time := 0;
    }

    method Now() returns (t: nat)
      modifies this
      ensures t == time && old(time) <= time
    {
      var elapsed: nat :| true;
      time := time + elapsed;
      t := time;
    }
  }

  /** An item without its stamp. */
  datatype Entry<T> = Entry(id: Id, status: T)

  ghost function Strip<K, T>(m: map<K, Item<T>>): map<K, Entry<T>> {
    map k | k in m :: Entry(m[k].id, m[k].status)
  }

  ghost function Entries<K, T>(m: map<K, Item<T>>): set<Entry<T>> {
    set k | k in m :: Entry(m[k].id, m[k].status)
  }

  ghost predicate Stamped<K, T>(m: map<K, Item<T>>, from: nat, to: nat) {
    forall k :: k in m ==> from <= m[k].refreshed <= to
  }

  ghost predicate OwnKeys<T>(m: map<Id, Item<T>>) {
    forall id :: id in m ==> m[id].id == id
  }

  /** `m` holds `entries`, each under its own id, stamped between `from` and `to`. */
  ghost predicate Collected<T>(m: map<Id, Item<T>>, from: nat, to: nat, entries: set<Entry<T>>) {
    && OwnKeys(m) && Stamped(m, from, to) && Entries(m) == entries
  }

  lemma Collect<T>(m: map<Id, Item<T>>, from: nat, to: nat, entries: set<Entry<T>>, item: Item<T>, to': nat)
    requires Collected(m, from, to, entries) && from <= to <= item.refreshed <= to'
    requires forall e :: e in entries ==> e.id != item.id
    ensures Collected(m[item.id := item], from, to', entries + {Entry(item.id, item.status)})
  {
    var m' := m[item.id := item];
    assert forall id :: id in m ==> Entry(m[id].id, m[id].status) in entries;
    assert item.id in m' && forall j :: j in m ==> j in m' && m'[j] == m[j];
  }

  lemma StripInsert<K, T>(m: map<K, Item<T>>, k: K, v: Item<T>)
    ensures Strip(m[k := v]) == Strip(m)[k := Entry(v.id, v.status)]
  {
  }

  // ----- What the dumps say -----

  ghost function LinkId(index: nat, s: LinkStatus): Id {
    Id(Some(index), s.name, Some(s.device))
  }

  ghost function LinkEntries(deviceLinks: map<string, string>, dump: seq<Message>): seq<Entry<LinkStatus>> {
    if dump == [] then []
    else
      var n := |dump| - 1;
      var before := LinkEntries(deviceLinks, dump[..n]);
      match LinkReport(deviceLinks, dump[n])
      case None => before
      case Some((index, s)) => before + [Entry(LinkId(index, s), s)]
  }

  ghost function ByLinkName(es: seq<Entry<LinkStatus>>): map<string, Entry<LinkStatus>> {
    if es == [] then map[]
    else
      var n := |es| - 1;
      var before := ByLinkName(es[..n]);
      if es[n].status.name.Some? then before[es[n].status.name.value := es[n]] else before
  }

  ghost function ByDeviceIndex(es: seq<Entry<LinkStatus>>): map<nat, Entry<LinkStatus>> {
    if es == [] then map[]
    else
      var n := |es| - 1;
      var before := ByDeviceIndex(es[..n]);
      if es[n].id.index.Some? then before[es[n].id.index.value := es[n]] else before
  }

  ghost function ById(es: seq<Entry<LinkStatus>>): map<Id, Entry<LinkStatus>> {
    if es == [] then map[]
    else
      var n := |es| - 1;
      ById(es[..n])[es[n].id := es[n]]
  }

  lemma FoldsExtend(es: seq<Entry<LinkStatus>>, e: Entry<LinkStatus>)
    ensures ByLinkName(es + [e])
      == if e.status.name.Some? then ByLinkName(es)[e.status.name.value := e] else ByLinkName(es)
    ensures ByDeviceIndex(es + [e])
      == if e.id.index.Some? then ByDeviceIndex(es)[e.id.index.value := e] else ByDeviceIndex(es)
    ensures ById(es + [e]) == ById(es)[e.id := e]
  {
    assert (es + [e])[..|es|] == es;
  }

  // ----- What the folds over the entries hold -----

  ghost predicate FromKernel(e: Entry<LinkStatus>) {
    e.id.index.Some? && e.id == LinkId(e.id.index.value, e.status)
  }

  lemma {:induction false} LinkEntriesFromKernel(deviceLinks: map<string, string>, dump: seq<Message>)
    ensures forall e :: e in LinkEntries(deviceLinks, dump) ==> FromKernel(e)
  {
    if dump != [] {
      LinkEntriesFromKernel(deviceLinks, dump[..|dump| - 1]);
    }
  }

  lemma {:induction false} FoldsHoldEntries(es: seq<Entry<LinkStatus>>)
    requires forall e :: e in es ==> FromKernel(e)
    ensures forall id :: id in ById(es) ==> ById(es)[id] in es && ById(es)[id].id == id
    ensures forall n :: n in ByLinkName(es) ==> ByLinkName(es)[n] in es && ByLinkName(es)[n].status.name == Some(n)
    ensures forall i :: i in ByDeviceIndex(es) ==>
              ByDeviceIndex(es)[i] in es && ByDeviceIndex(es)[i].id.index == Some(i)
    ensures forall e :: e in es ==>
              e.id in ById(es) && e.id.index.Some? && e.id.index.value in ByDeviceIndex(es)
              && (e.status.name.Some? ==> e.status.name.value in ByLinkName(es))
  {
    if es != [] {
      FoldsHoldEntries(es[..|es| - 1]);
      assert es == es[..|es| - 1] + [es[|es| - 1]];
    }
  }

  lemma LinksCollected(m: map<Id, Item<LinkStatus>>, from: nat, to: nat, es: seq<Entry<LinkStatus>>)
    requires Strip(m) == ById(es) && Stamped(m, from, to)
    requires forall e :: e in es ==> FromKernel(e)
    ensures Collected(m, from, to, LinkBase(es))
    ensures forall e :: e in LinkBase(es) ==> e.id.index.Some?
  {
    FoldsHoldEntries(es);
    forall id | id in m ensures m[id].id == id && Entry(m[id].id, m[id].status) == ById(es)[id] {
      assert Strip(m)[id] == Entry(m[id].id, m[id].status);
    }
  }

  ghost function AddressGroups(dump: seq<Message>): map<nat, seq<IpAddress>> {
    if dump == [] then map[]
    else
      var n := |dump| - 1;
      var before := AddressGroups(dump[..n]);
      match AddressReport(dump[n])
      case None => before
      case Some((index, a)) => before[index := (if index in before then before[index] else []) + [a]]
  }

  // ----- What the snapshot must hold -----

  ghost function Unmapped(config: Config, named: map<string, Entry<LinkStatus>>): map<string, string> {
    map n | n in config.links && n !in named :: config.links[n]
  }

  ghost function MissingLink(name: string, device: string): Entry<LinkStatus> {
    Entry(Id(None, Some(name), Some(device)), LinkStatus(Some(name), device, NotFound))
  }

  ghost function LinkBase(es: seq<Entry<LinkStatus>>): set<Entry<LinkStatus>> {
    set id | id in ById(es) :: ById(es)[id]
  }

  ghost function LinkSpec(config: Config, es: seq<Entry<LinkStatus>>): set<Entry<LinkStatus>> {
    var unmapped := Unmapped(config, ByLinkName(es));
    LinkBase(es) + (set n | n in unmapped :: MissingLink(n, unmapped[n]))
  }

  /** The device index of a configured interface whose link was dumped. */
  ghost function InterfaceIndex(config: Config, named: map<string, Entry<LinkStatus>>, name: string): Option<nat>
    requires name in config.interfaces
  {
    if config.interfaces[name] in named then named[config.interfaces[name]].id.index else None
  }

  /** `owner` says which configured interface took the addresses of each index that was taken:
      every index with addresses and some configured interface has one owner among those. */
  ghost predicate Owners(config: Config, named: map<string, Entry<LinkStatus>>,
                         groups: map<nat, seq<IpAddress>>, owner: map<nat, string>)
  {
    && (forall i :: i in owner ==>
          i in groups && owner[i] in config.interfaces && InterfaceIndex(config, named, owner[i]) == Some(i))
    && (forall name :: name in config.interfaces ==>
          var i := InterfaceIndex(config, named, name);
          i.Some? && i.value in groups ==> i.value in owner)
  }

  ghost function TakenAddresses(config: Config, named: map<string, Entry<LinkStatus>>,
                                groups: map<nat, seq<IpAddress>>, owner: map<nat, string>, name: string): seq<IpAddress>
    requires name in config.interfaces
  {
    var i := InterfaceIndex(config, named, name);
    if i.Some? && i.value in owner && owner[i.value] == name && i.value in groups then Sort(groups[i.value]) else []
  }

  /** The entry of a configured interface; `absent` is the state shown for a configured link that
      was not dumped. */
  ghost function ConfiguredEntry(config: Config, named: map<string, Entry<LinkStatus>>,
                                 groups: map<nat, seq<IpAddress>>, owner: map<nat, string>,
                                 name: string, absent: OperationalState): Entry<InterfaceStatus>
    requires name in config.interfaces
  {
    var linkName := config.interfaces[name];
    if linkName in named then
      var l := named[linkName];
      Entry(Id(l.id.index, Some(name), l.id.device),
            InterfaceStatus(Some(name), TakenAddresses(config, named, groups, owner, name), l.status))
    else if linkName in config.links then
      Entry(Id(None, Some(name), Some(config.links[linkName])),
            InterfaceStatus(Some(name), [], LinkStatus(Some(linkName), config.links[linkName], absent)))
    else
      Entry(Id(None, Some(name), None),
            InterfaceStatus(Some(name), [], LinkStatus(Some(linkName), "", Misconfigured)))
  }

  ghost function LeftoverEntry(devices: map<nat, Entry<LinkStatus>>, groups: map<nat, seq<IpAddress>>,
                               i: nat): Entry<InterfaceStatus>
    requires i in devices && i in groups
  {
    Entry(Id(Some(i), None, Some(devices[i].status.device)),
          InterfaceStatus(None, Sort(groups[i]), devices[i].status))
  }

  ghost function AbsentState(config: Config, linkInterfaces: map<string, string>, name: string): OperationalState
    requires name in config.interfaces
  {
    var linkName := config.interfaces[name];
    if linkName in linkInterfaces && linkInterfaces[linkName] == name then NotFound else Misconfigured
  }

  ghost function InterfaceSpec(config: Config, linkInterfaces: map<string, string>, es: seq<Entry<LinkStatus>>,
                               groups: map<nat, seq<IpAddress>>, owner: map<nat, string>): set<Entry<InterfaceStatus>>
  {
    var named, devices := ByLinkName(es), ByDeviceIndex(es);
    (set name | name in config.interfaces ::
       ConfiguredEntry(config, named, groups, owner, name, AbsentState(config, linkInterfaces, name)))
    + (set i | i in groups && i !in owner && i in devices :: LeftoverEntry(devices, groups, i))
  }

  // ----- Building it -----

  /** The maps hold what the entries read so far say. */
  ghost predicate LinksRead(config: Config, es: seq<Entry<LinkStatus>>, mappedDevices: map<nat, Item<LinkStatus>>,
                            mappedLinks: map<string, Item<LinkStatus>>, networkLinks: map<Id, Item<LinkStatus>>,
                            unmapped: map<string, string>)
  {
    && Strip(mappedDevices) == ByDeviceIndex(es) && Strip(mappedLinks) == ByLinkName(es)
    && Strip(networkLinks) == ById(es) && unmapped == Unmapped(config, ByLinkName(es))
  }

  lemma LinksReadExtends(config: Config, es: seq<Entry<LinkStatus>>, mappedDevices: map<nat, Item<LinkStatus>>,
                         mappedLinks: map<string, Item<LinkStatus>>, networkLinks: map<Id, Item<LinkStatus>>,
                         unmapped: map<string, string>, item: Item<LinkStatus>)
    requires LinksRead(config, es, mappedDevices, mappedLinks, networkLinks, unmapped) && item.id.index.Some?
    ensures var named := item.status.name;
            LinksRead(config, es + [Entry(item.id, item.status)],
                      mappedDevices[item.id.index.value := item],
                      if named.Some? then mappedLinks[named.value := item] else mappedLinks,
                      networkLinks[item.id := item],
                      if named.Some? then unmapped - {named.value} else unmapped)
  {
    FoldsExtend(es, Entry(item.id, item.status));
    StripInsert(mappedDevices, item.id.index.value, item);
    StripInsert(networkLinks, item.id, item);
    if item.status.name.Some? {
      StripInsert(mappedLinks, item.status.name.value, item);
    }
  }

  method ReadLinkDump(clock: Clock, config: Config, deviceLinks: map<string, string>, dump: seq<Message>)
    returns (mappedDevices: map<nat, Item<LinkStatus>>, mappedLinks: map<string, Item<LinkStatus>>,
             networkLinks: map<Id, Item<LinkStatus>>, unmapped: map<string, string>)
    modifies clock
    ensures old(clock.time) <= clock.time
    ensures var es := LinkEntries(deviceLinks, dump);
            && Collected(networkLinks, old(clock.time), clock.time, LinkBase(es))
            && LinksRead(config, es, mappedDevices, mappedLinks, networkLinks, unmapped)
  {
    ghost var start := clock.time;
    mappedDevices, mappedLinks, networkLinks, unmapped := map[], map[], map[], config.links;
    ghost var es: seq<Entry<LinkStatus>> := [];
    for k := 0 to |dump|
      invariant start <= clock.time && Stamped(networkLinks, start, clock.time)
      invariant es == LinkEntries(deviceLinks, dump[..k])
      invariant LinksRead(config, es, mappedDevices, mappedLinks, networkLinks, unmapped)
    {
      assert dump[..k + 1][..k] == dump[..k];
      var report := ProcessLink(deviceLinks, dump[k]);
      if report.Some? {
        var (index, status) := report.value;
        var id := Id(Some(index), status.name, Some(status.device));
        var now := clock.Now();
        var item := Item(id, status, now);
        LinksReadExtends(config, es, mappedDevices, mappedLinks, networkLinks, unmapped, item);
        if status.name.Some? {
          unmapped := unmapped - {status.name.value};
          mappedLinks := mappedLinks[status.name.value := item];
        }
        mappedDevices := mappedDevices[index := item];
        networkLinks := networkLinks[id := item];
        es := es + [Entry(id, status)];
      }
    }
    assert dump[..|dump|] == dump;
    LinkEntriesFromKernel(deviceLinks, dump);
    LinksCollected(networkLinks, start, clock.time, es);
  }

  ghost function UnmappedLinks(unmapped: map<string, string>, pending: set<string>): set<Entry<LinkStatus>> {
    set n | n in unmapped && n !in pending :: MissingLink(n, unmapped[n])
  }

  ghost function MissingInterface(name: string, link: string, device: string): Entry<InterfaceStatus> {
    Entry(Id(None, Some(name), Some(device)),
          InterfaceStatus(Some(name), [], LinkStatus(Some(link), device, NotFound)))
  }

  ghost function MissingInterfaces(unmapped: map<string, string>, linkInterfaces: map<string, string>,
                                   pending: set<string>): set<Entry<InterfaceStatus>>
  {
    set n | n in unmapped && n !in pending && n in linkInterfaces ::
      MissingInterface(linkInterfaces[n], n, unmapped[n])
  }

  lemma OneFewerPending(unmapped: map<string, string>, linkInterfaces: map<string, string>,
                        pending: set<string>, n: string)
    requires n in pending && n in unmapped
    ensures UnmappedLinks(unmapped, pending - {n}) == UnmappedLinks(unmapped, pending) + {MissingLink(n, unmapped[n])}
    ensures MissingInterfaces(unmapped, linkInterfaces, pending - {n})
         == MissingInterfaces(unmapped, linkInterfaces, pending)
            + if n in linkInterfaces then {MissingInterface(linkInterfaces[n], n, unmapped[n])} else {}
  {
  }

  lemma UnmappedFresh(unmapped: map<string, string>, config: Config, linkInterfaces: map<string, string>,
                      pending: set<string>, n: string)
    requires IsInverse(config.interfaces, linkInterfaces) && n in pending
    ensures forall e, device :: e in UnmappedLinks(unmapped, pending) ==> e.id != Id(None, Some(n), device)
    ensures n in linkInterfaces ==>
              forall e, device :: e in MissingInterfaces(unmapped, linkInterfaces, pending)
                ==> e.id != Id(None, Some(linkInterfaces[n]), device)
  {
  }

  /** Configured links the kernel did not report, and the interfaces on them. */
  method AddUnmapped(clock: Clock, unmapped: map<string, string>, config: Config, linkInterfaces: map<string, string>,
                     networkLinks: map<Id, Item<LinkStatus>>, ghost from: nat, ghost base: set<Entry<LinkStatus>>)
    returns (networkLinks': map<Id, Item<LinkStatus>>, missing: map<Id, Item<InterfaceStatus>>)
    requires IsInverse(config.interfaces, linkInterfaces)
    requires from <= clock.time && Collected(networkLinks, from, clock.time, base)
    requires forall e :: e in base ==> e.id.index.Some?
    modifies clock
    ensures old(clock.time) <= clock.time
    ensures Collected(networkLinks', from, clock.time, base + UnmappedLinks(unmapped, {}))
    ensures Collected(missing, from, clock.time, MissingInterfaces(unmapped, linkInterfaces, {}))
  {
    networkLinks', missing := networkLinks, map[];
    var pending := unmapped.Keys;
    while pending != {}
      invariant pending <= unmapped.Keys
      invariant old(clock.time) <= clock.time
      invariant Collected(networkLinks', from, clock.time, base + UnmappedLinks(unmapped, pending))
      invariant Collected(missing, from, clock.time, MissingInterfaces(unmapped, linkInterfaces, pending))
      decreases pending
    {
      var name :| name in pending;
      var device := unmapped[name];
      OneFewerPending(unmapped, linkInterfaces, pending, name);
      UnmappedFresh(unmapped, config, linkInterfaces, pending, name);
      networkLinks', missing := AddOneUnmapped(clock, name, device, linkInterfaces, networkLinks', missing, from,
        base + UnmappedLinks(unmapped, pending), MissingInterfaces(unmapped, linkInterfaces, pending));
      assert base + UnmappedLinks(unmapped, pending - {name})
          == base + UnmappedLinks(unmapped, pending) + {MissingLink(name, device)};
      pending := pending - {name};
    }
  }

  method AddOneUnmapped(clock: Clock, name: string, device: string, linkInterfaces: map<string, string>,
                        networkLinks: map<Id, Item<LinkStatus>>, missing: map<Id, Item<InterfaceStatus>>,
                        ghost from: nat, ghost links: set<Entry<LinkStatus>>,
                        ghost interfaces: set<Entry<InterfaceStatus>>)
    returns (networkLinks': map<Id, Item<LinkStatus>>, missing': map<Id, Item<InterfaceStatus>>)
    requires from <= clock.time
    requires Collected(networkLinks, from, clock.time, links) && Collected(missing, from, clock.time, interfaces)
    requires forall e :: e in links ==> e.id != Id(None, Some(name), Some(device))
    requires name in linkInterfaces ==>
               forall e :: e in interfaces ==> e.id != Id(None, Some(linkInterfaces[name]), Some(device))
    modifies clock
    ensures old(clock.time) <= clock.time
    ensures Collected(networkLinks', from, clock.time, links + {MissingLink(name, device)})
    ensures Collected(missing', from, clock.time,
              interfaces
              + if name in linkInterfaces then {MissingInterface(linkInterfaces[name], name, device)} else {})
  {
    missing' := missing;
    ghost var start := clock.time;
    var id := Id(None, Some(name), Some(device));
    var status := LinkStatus(Some(name), device, NotFound);
    var now := clock.Now();
    networkLinks' := networkLinks[id := Item(id, status, now)];
    if name in linkInterfaces {
      var interfaceId := Id(None, Some(linkInterfaces[name]), Some(device));
      var later := clock.Now();
      var item := Item(interfaceId, InterfaceStatus(Some(linkInterfaces[name]), [], status), later);
      missing' := missing[interfaceId := item];
      Collect(missing, from, start, interfaces, item, clock.time);
    } else {
      assert interfaces + {} == interfaces;
    }
    Collect(networkLinks, from, start, links, Item(id, status, now), clock.time);
  }

  method GroupAddresses(dump: seq<Message>) returns (groups: map<nat, seq<IpAddress>>)
    ensures groups == AddressGroups(dump)
  {
    groups := map[];
    for k := 0 to |dump|
      invariant groups == AddressGroups(dump[..k])
    {
      assert dump[..k + 1][..k] == dump[..k];
      var report := ProcessAddress(dump[k]);
      if report.Some? {
        var (index, address) := report.value;
        groups := groups[index := (if index in groups then groups[index] else []) + [address]];
      }
    }
    assert dump[..|dump|] == dump;
  }

  ghost function ConfiguredEntries(config: Config, named: map<string, Entry<LinkStatus>>,
                                   groups: map<nat, seq<IpAddress>>, owner: map<nat, string>,
                                   names: set<string>): set<Entry<InterfaceStatus>>
    requires names <= config.interfaces.Keys
  {
    set name | name in names :: ConfiguredEntry(config, named, groups, owner, name, Misconfigured)
  }

  /** Giving a fresh index to `name` changes no entry of another interface. */
  lemma OwnerExtends(config: Config, named: map<string, Entry<LinkStatus>>, groups: map<nat, seq<IpAddress>>,
                     owner: map<nat, string>, names: set<string>, i: nat, name: string)
    requires names <= config.interfaces.Keys && i !in owner && name !in names
    ensures ConfiguredEntries(config, named, groups, owner[i := name], names)
         == ConfiguredEntries(config, named, groups, owner, names)
  {
    forall n | n in names
      ensures ConfiguredEntry(config, named, groups, owner[i := name], n, Misconfigured)
           == ConfiguredEntry(config, named, groups, owner, n, Misconfigured)
    {
    }
  }

  ghost function NextOwner(config: Config, named: map<string, Entry<LinkStatus>>, groups: map<nat, seq<IpAddress>>,
                           owner: map<nat, string>, name: string): map<nat, string>
    requires name in config.interfaces
  {
    var i := InterfaceIndex(config, named, name);
    if i.Some? && i.value in groups && i.value !in owner then owner[i.value := name] else owner
  }

  /** `Owners` for the interfaces handled so far. */
  ghost predicate OwnersAmong(config: Config, named: map<string, Entry<LinkStatus>>, groups: map<nat, seq<IpAddress>>,
                              owner: map<nat, string>, names: set<string>)
    requires names <= config.interfaces.Keys
  {
    && (forall i :: i in owner ==>
          i in groups && owner[i] in names && InterfaceIndex(config, named, owner[i]) == Some(i))
    && (forall name :: name in names ==>
          var i := InterfaceIndex(config, named, name);
          i.Some? && i.value in groups ==> i.value in owner)
  }

  /** Handling one more interface: its entry is added, and no other entry changes. */
  lemma OneMoreConfigured(config: Config, named: map<string, Entry<LinkStatus>>, groups: map<nat, seq<IpAddress>>,
                          owner: map<nat, string>, names: set<string>, name: string)
    requires names <= config.interfaces.Keys && name in config.interfaces && name !in names
    requires OwnersAmong(config, named, groups, owner, names)
    ensures var owner' := NextOwner(config, named, groups, owner, name);
            && OwnersAmong(config, named, groups, owner', names + {name})
            && ConfiguredEntries(config, named, groups, owner', names + {name})
               == ConfiguredEntries(config, named, groups, owner, names)
                  + {ConfiguredEntry(config, named, groups, owner', name, Misconfigured)}
  {
    var owner' := NextOwner(config, named, groups, owner, name);
    if owner' != owner {
      OwnerExtends(config, named, groups, owner, names, InterfaceIndex(config, named, name).value, name);
    }
    assert ConfiguredEntries(config, named, groups, owner', names + {name})
        == ConfiguredEntries(config, named, groups, owner', names)
           + {ConfiguredEntry(config, named, groups, owner', name, Misconfigured)};
  }

  /** What taking the addresses of its link's index out of `left` means for an interface. */
  lemma TakenByNextOwner(config: Config, named: map<string, Entry<LinkStatus>>, groups: map<nat, seq<IpAddress>>,
                         owner: map<nat, string>, name: string)
    requires name in config.interfaces && forall i :: i in owner ==> owner[i] != name
    ensures var i, left := InterfaceIndex(config, named, name), groups - owner.Keys;
            var owner' := NextOwner(config, named, groups, owner, name);
            && groups - owner'.Keys == left - (if i.Some? then {i.value} else {})
            && TakenAddresses(config, named, groups, owner', name)
               == if i.Some? && i.value in left then Sort(left[i.value]) else []
  {
    var i, left := InterfaceIndex(config, named, name), groups - owner.Keys;
    var owner' := NextOwner(config, named, groups, owner, name);
    if i.Some? && i.value in left {
      assert owner'.Keys == owner.Keys + {i.value};
    }
  }

  method TakeAddresses(index: Option<nat>, left: map<nat, seq<IpAddress>>)
    returns (addresses: seq<IpAddress>, left': map<nat, seq<IpAddress>>)
    ensures left' == left - (if index.Some? then {index.value} else {})
    ensures addresses == if index.Some? && index.value in left then Sort(left[index.value]) else []
  {
    addresses, left' := [], left;
    if index.Some? && index.value in left {
      addresses := Sort(left[index.value]);
      left' := left - {index.value};
    }
  }

  /** One configured interface: takes the addresses of its link's index out of `left`. */
  method ConfigureOne(clock: Clock, config: Config, mappedLinks: map<string, Item<LinkStatus>>, name: string,
                      left: map<nat, seq<IpAddress>>, ghost groups: map<nat, seq<IpAddress>>,
                      ghost owner: map<nat, string>)
    returns (item: Item<InterfaceStatus>, left': map<nat, seq<IpAddress>>, ghost owner': map<nat, string>)
    requires name in config.interfaces
    requires left == groups - owner.Keys
    requires forall i :: i in owner ==> owner[i] != name
    modifies clock
    ensures old(clock.time) <= item.refreshed == clock.time
    ensures left' == groups - owner'.Keys
    ensures owner' == NextOwner(config, Strip(mappedLinks), groups, owner, name)
    ensures Entry(item.id, item.status)
         == ConfiguredEntry(config, Strip(mappedLinks), groups, owner', name, Misconfigured)
  {
    left', owner' := left, NextOwner(config, Strip(mappedLinks), groups, owner, name);
    TakenByNextOwner(config, Strip(mappedLinks), groups, owner, name);
    var linkName := config.interfaces[name];
    var now := clock.Now();
    if linkName in mappedLinks {
      var link := mappedLinks[linkName];
      assert Strip(mappedLinks)[linkName] == Entry(link.id, link.status);
      var addresses;
      addresses, left' := TakeAddresses(link.id.index, left);
      item := Item(Id(link.id.index, Some(name), link.id.device),
                   InterfaceStatus(Some(name), addresses, link.status), now);
    } else if linkName in config.links {
      item := Item(Id(None, Some(name), Some(config.links[linkName])),
                   InterfaceStatus(Some(name), [], LinkStatus(Some(linkName), config.links[linkName], Misconfigured)),
                   now);
    } else {
      item := Item(Id(None, Some(name), None),
                   InterfaceStatus(Some(name), [], LinkStatus(Some(linkName), "", Misconfigured)), now);
    }
  }

  /** The interfaces in `names` are configured, and `left` is what they left. */
  ghost predicate ConfiguredSoFar(config: Config, named: map<string, Entry<LinkStatus>>,
                                  groups: map<nat, seq<IpAddress>>,
                                  owner: map<nat, string>, left: map<nat, seq<IpAddress>>, names: set<string>)
    requires names <= config.interfaces.Keys
  {
    left == groups - owner.Keys && OwnersAmong(config, named, groups, owner, names)
  }

  method ConfigureNext(clock: Clock, config: Config, mappedLinks: map<string, Item<LinkStatus>>, name: string,
                       interfaces: map<Id, Item<InterfaceStatus>>, left: map<nat, seq<IpAddress>>,
                       ghost groups: map<nat, seq<IpAddress>>, ghost owner: map<nat, string>,
                       ghost done: set<string>, ghost from: nat)
    returns (interfaces': map<Id, Item<InterfaceStatus>>, left': map<nat, seq<IpAddress>>,
             ghost owner': map<nat, string>)
    requires name in config.interfaces && done <= config.interfaces.Keys && name !in done && from <= clock.time
    requires ConfiguredSoFar(config, Strip(mappedLinks), groups, owner, left, done)
    requires Collected(interfaces, from, clock.time, ConfiguredEntries(config, Strip(mappedLinks), groups, owner, done))
    modifies clock
    ensures old(clock.time) <= clock.time
    ensures ConfiguredSoFar(config, Strip(mappedLinks), groups, owner', left', done + {name})
    ensures Collected(interfaces', from, clock.time,
                      ConfiguredEntries(config, Strip(mappedLinks), groups, owner', done + {name}))
  {
    ghost var named := Strip(mappedLinks);
    ghost var entries, time := ConfiguredEntries(config, named, groups, owner, done), clock.time;
    OneMoreConfigured(config, named, groups, owner, done, name);
    var item;
    item, left', owner' := ConfigureOne(clock, config, mappedLinks, name, left, groups, owner);
    Collect(interfaces, from, time, entries, item, clock.time);
    interfaces' := interfaces[item.id := item];
  }

  method ConfiguredInterfaces(clock: Clock, config: Config, mappedLinks: map<string, Item<LinkStatus>>,
                              groups: map<nat, seq<IpAddress>>, ghost from: nat)
    returns (interfaces: map<Id, Item<InterfaceStatus>>, left: map<nat, seq<IpAddress>>, ghost owner: map<nat, string>)
    requires from <= clock.time
    modifies clock
    ensures old(clock.time) <= clock.time
    ensures Owners(config, Strip(mappedLinks), groups, owner) && left == groups - owner.Keys
    ensures Collected(interfaces, from, clock.time,
                      ConfiguredEntries(config, Strip(mappedLinks), groups, owner, config.interfaces.Keys))
  {
    interfaces, left, owner := map[], groups, map[];
    ghost var named := Strip(mappedLinks);
    ghost var done: set<string> := {};
    assert left == groups - owner.Keys;
    var pending := config.interfaces.Keys;
    while pending != {}
      invariant pending <= config.interfaces.Keys && done == config.interfaces.Keys - pending
      invariant old(clock.time) <= clock.time
      invariant ConfiguredSoFar(config, named, groups, owner, left, done)
      invariant Collected(interfaces, from, clock.time, ConfiguredEntries(config, named, groups, owner, done))
      decreases pending
    {
      var name :| name in pending;
      interfaces, left, owner := ConfigureNext(clock, config, mappedLinks, name, interfaces, left, groups, owner, done,
                                               from);
      pending, done := pending - {name}, done + {name};
    }
    assert done == config.interfaces.Keys;
  }

  ghost function Leftovers(devices: map<nat, Entry<LinkStatus>>, groups: map<nat, seq<IpAddress>>,
                           at: set<nat>): set<Entry<InterfaceStatus>>
  {
    set i | i in at && i in groups && i in devices :: LeftoverEntry(devices, groups, i)
  }

  lemma OneMoreLeftover(devices: map<nat, Entry<LinkStatus>>, groups: map<nat, seq<IpAddress>>, at: set<nat>, i: nat)
    requires i in groups
    ensures Leftovers(devices, groups, at + {i})
         == Leftovers(devices, groups, at) + if i in devices then {LeftoverEntry(devices, groups, i)} else {}
  {
  }

  /** Addresses no configured interface took, on devices the kernel did report. */
  method LeftoverInterfaces(clock: Clock, mappedDevices: map<nat, Item<LinkStatus>>, left: map<nat, seq<IpAddress>>,
                            interfaces: map<Id, Item<InterfaceStatus>>, ghost from: nat,
                            ghost base: set<Entry<InterfaceStatus>>)
    returns (interfaces': map<Id, Item<InterfaceStatus>>)
    requires from <= clock.time && Collected(interfaces, from, clock.time, base)
    requires forall e :: e in base ==> e.id.name.Some?
    modifies clock
    ensures old(clock.time) <= clock.time
    ensures Collected(interfaces', from, clock.time, base + Leftovers(Strip(mappedDevices), left, left.Keys))
  {
    interfaces' := interfaces;
    ghost var devices := Strip(mappedDevices);
    var pending := left.Keys;
    ghost var done: set<nat> := {};
    while pending != {}
      invariant pending <= left.Keys && done == left.Keys - pending
      invariant old(clock.time) <= clock.time
      invariant Collected(interfaces', from, clock.time, base + Leftovers(devices, left, done))
      decreases pending
    {
      var i :| i in pending;
      ghost var entries, time := base + Leftovers(devices, left, done), clock.time;
      OneMoreLeftover(devices, left, done, i);
      if i in mappedDevices {
        var link := mappedDevices[i];
        var id := Id(Some(i), None, Some(link.status.device));
        var now := clock.Now();
        var item := Item(id, InterfaceStatus(None, Sort(left[i]), link.status), now);
        assert Entry(id, item.status) == LeftoverEntry(devices, left, i);
        Collect(interfaces', from, time, entries, item, clock.time);
        interfaces' := interfaces'[id := item];
        assert entries + {Entry(id, item.status)} == base + Leftovers(devices, left, done + {i});
      } else {
        assert entries == base + Leftovers(devices, left, done + {i});
      }
      pending, done := pending - {i}, done + {i};
    }
    assert done == left.Keys;
  }

  ghost predicate SpecParts(config: Config, linkInterfaces: map<string, string>, es: seq<Entry<LinkStatus>>,
                            groups: map<nat, seq<IpAddress>>, owner: map<nat, string>,
                            before: set<Entry<InterfaceStatus>>, missing: set<Entry<InterfaceStatus>>)
  {
    && before == ConfiguredEntries(config, ByLinkName(es), groups, owner, config.interfaces.Keys)
                 + Leftovers(ByDeviceIndex(es), groups - owner.Keys, (groups - owner.Keys).Keys)
    && missing == MissingInterfaces(Unmapped(config, ByLinkName(es)), linkInterfaces, {})
  }

  /** The entry of a missing interface stands where its configured entry stood. */
  lemma MissingOverridesConfigured(config: Config, linkInterfaces: map<string, string>, es: seq<Entry<LinkStatus>>,
                                   groups: map<nat, seq<IpAddress>>, owner: map<nat, string>,
                                   before: set<Entry<InterfaceStatus>>, missing: set<Entry<InterfaceStatus>>)
    requires IsInverse(config.interfaces, linkInterfaces)
    requires SpecParts(config, linkInterfaces, es, groups, owner, before, missing)
    ensures missing <= InterfaceSpec(config, linkInterfaces, es, groups, owner)
    ensures forall e :: e in before && (forall m :: m in missing ==> m.id != e.id)
              ==> e in InterfaceSpec(config, linkInterfaces, es, groups, owner)
  {
    var named, devices := ByLinkName(es), ByDeviceIndex(es);
    var spec := InterfaceSpec(config, linkInterfaces, es, groups, owner);
    forall e | e in missing ensures e in spec {
      var n :| n in config.links && n !in named && n in linkInterfaces
               && e == MissingInterface(linkInterfaces[n], n, config.links[n]);
      var name := linkInterfaces[n];
      assert e == ConfiguredEntry(config, named, groups, owner, name, AbsentState(config, linkInterfaces, name));
    }
    forall e | e in before && (forall m :: m in missing ==> m.id != e.id) ensures e in spec {
      if name :| name in config.interfaces && e == ConfiguredEntry(config, named, groups, owner, name, Misconfigured) {
        ConfiguredSurvives(config, linkInterfaces, es, groups, owner, before, missing, name);
      } else {
        assert e in Leftovers(devices, groups - owner.Keys, (groups - owner.Keys).Keys);
        var i :| i in groups && i !in owner && i in devices && e == LeftoverEntry(devices, groups - owner.Keys, i);
        assert e == LeftoverEntry(devices, groups, i);
      }
    }
  }

  lemma ConfiguredSurvives(config: Config, linkInterfaces: map<string, string>, es: seq<Entry<LinkStatus>>,
                           groups: map<nat, seq<IpAddress>>, owner: map<nat, string>,
                           before: set<Entry<InterfaceStatus>>, missing: set<Entry<InterfaceStatus>>, name: string)
    requires SpecParts(config, linkInterfaces, es, groups, owner, before, missing)
    requires name in config.interfaces
    requires var e := ConfiguredEntry(config, ByLinkName(es), groups, owner, name, Misconfigured);
             forall m :: m in missing ==> m.id != e.id
    ensures ConfiguredEntry(config, ByLinkName(es), groups, owner, name, Misconfigured)
         == ConfiguredEntry(config, ByLinkName(es), groups, owner, name, AbsentState(config, linkInterfaces, name))
  {
    var n := config.interfaces[name];
    if n in config.links && n !in ByLinkName(es) && n in linkInterfaces && linkInterfaces[n] == name {
      assert MissingInterface(name, n, config.links[n]) in missing;
    }
  }

  /** Every entry of the specification has its id before or among the missing ones. */
  lemma SpecIdsCovered(config: Config, linkInterfaces: map<string, string>, es: seq<Entry<LinkStatus>>,
                       groups: map<nat, seq<IpAddress>>, owner: map<nat, string>,
                       before: set<Entry<InterfaceStatus>>, missing: set<Entry<InterfaceStatus>>,
                       e: Entry<InterfaceStatus>)
    requires IsInverse(config.interfaces, linkInterfaces)
    requires SpecParts(config, linkInterfaces, es, groups, owner, before, missing)
    requires e in InterfaceSpec(config, linkInterfaces, es, groups, owner)
    ensures e in missing || (e in before && forall m :: m in missing ==> m.id != e.id)
  {
    var named, devices := ByLinkName(es), ByDeviceIndex(es);
    if name :| name in config.interfaces
               && e == ConfiguredEntry(config, named, groups, owner, name, AbsentState(config, linkInterfaces, name)) {
      var n := config.interfaces[name];
      if n !in named && n in config.links && n in linkInterfaces && linkInterfaces[n] == name {
        assert e == MissingInterface(name, n, config.links[n]);
      } else {
        assert e == ConfiguredEntry(config, named, groups, owner, name, Misconfigured);
      }
    } else {
      var i :| i in groups && i !in owner && i in devices && e == LeftoverEntry(devices, groups, i);
      assert e == LeftoverEntry(devices, groups - owner.Keys, i);
    }
  }

  lemma MergedEntries<T>(m: map<Id, Item<T>>, over: map<Id, Item<T>>, from: nat, to: nat,
                         before: set<Entry<T>>, entries: set<Entry<T>>, spec: set<Entry<T>>)
    requires Collected(m, from, to, before) && Collected(over, from, to, entries)
    requires entries <= spec
    requires forall e :: e in before && (forall o :: o in entries ==> o.id != e.id) ==> e in spec
    requires forall e :: e in spec ==> e in entries || (e in before && forall o :: o in entries ==> o.id != e.id)
    ensures Collected(m + over, from, to, spec)
  {
    var all := m + over;
    assert forall id :: id in over ==> Entry(over[id].id, over[id].status) in entries;
    forall id | id in all ensures Entry(all[id].id, all[id].status) in spec {
      if id !in over {
        assert Entry(m[id].id, m[id].status) in before;
        forall o | o in entries ensures o.id != id {
          var k :| k in over && o == Entry(over[k].id, over[k].status);
        }
      }
    }
    forall e | e in spec ensures e in Entries(all) {
      if e in entries {
        var k :| k in over && e == Entry(over[k].id, over[k].status);
        assert all[k] == over[k];
      } else {
        var k :| k in m && e == Entry(m[k].id, m[k].status);
        assert k !in over;
        assert all[k] == m[k];
      }
    }
  }

  method Overwrite<T>(m: map<Id, Item<T>>, over: map<Id, Item<T>>) returns (merged: map<Id, Item<T>>)
    ensures merged == m + over
  {
    merged := m;
    var pending := over.Keys;
    while pending != {}
      invariant pending <= over.Keys
      invariant merged == m + map id | id in over && id !in pending :: over[id]
      decreases pending
    {
      var id :| id in pending;
      merged := merged[id := over[id]];
      pending := pending - {id};
    }
    assert over == map id | id in over && id !in pending :: over[id];
  }

  method BuildInterfaces(clock: Clock, config: Config, mappedLinks: map<string, Item<LinkStatus>>,
                         mappedDevices: map<nat, Item<LinkStatus>>, groups: map<nat, seq<IpAddress>>,
                         missing: map<Id, Item<InterfaceStatus>>, ghost linkInterfaces: map<string, string>,
                         ghost es: seq<Entry<LinkStatus>>, ghost from: nat)
    returns (interfaces: map<Id, Item<InterfaceStatus>>, ghost owner: map<nat, string>)
    requires IsInverse(config.interfaces, linkInterfaces) && from <= clock.time
    requires Strip(mappedLinks) == ByLinkName(es) && Strip(mappedDevices) == ByDeviceIndex(es)
    requires Collected(missing, from, clock.time,
                       MissingInterfaces(Unmapped(config, ByLinkName(es)), linkInterfaces, {}))
    modifies clock
    ensures old(clock.time) <= clock.time
    ensures Owners(config, ByLinkName(es), groups, owner)
    ensures Collected(interfaces, from, clock.time, InterfaceSpec(config, linkInterfaces, es, groups, owner))
  {
    var left;
    interfaces, left, owner := ConfiguredInterfaces(clock, config, mappedLinks, groups, from);
    ghost var base := ConfiguredEntries(config, ByLinkName(es), groups, owner, config.interfaces.Keys);
    interfaces := LeftoverInterfaces(clock, mappedDevices, left, interfaces, from, base);
    InterfacesMeetSpec(interfaces, missing, from, clock.time, config, linkInterfaces, es, groups, owner);
    interfaces := Overwrite(interfaces, missing);
  }

  lemma InterfacesMeetSpec(interfaces: map<Id, Item<InterfaceStatus>>, missing: map<Id, Item<InterfaceStatus>>,
                           from: nat, to: nat, config: Config, linkInterfaces: map<string, string>,
                           es: seq<Entry<LinkStatus>>, groups: map<nat, seq<IpAddress>>, owner: map<nat, string>)
    requires IsInverse(config.interfaces, linkInterfaces)
    requires SpecParts(config, linkInterfaces, es, groups, owner, Entries(interfaces), Entries(missing))
    requires Collected(interfaces, from, to, Entries(interfaces)) && Stamped(missing, from, to) && OwnKeys(missing)
    ensures Collected(interfaces + missing, from, to, InterfaceSpec(config, linkInterfaces, es, groups, owner))
  {
    var before, entries := Entries(interfaces), Entries(missing);
    var spec := InterfaceSpec(config, linkInterfaces, es, groups, owner);
    MissingOverridesConfigured(config, linkInterfaces, es, groups, owner, before, entries);
    forall e | e in spec ensures e in entries || (e in before && forall o :: o in entries ==> o.id != e.id) {
      SpecIdsCovered(config, linkInterfaces, es, groups, owner, before, entries, e);
    }
    MergedEntries(interfaces, missing, from, to, before, entries, spec);
  }

  /** The whole snapshot, as the poll builds it before it takes the table's lock. */
  method BuildSnapshot(clock: Clock, config: Config, deviceLinks: map<string, string>,
                       linkDump: seq<Message>, addressDump: seq<Message>)
    returns (links: map<Id, Item<LinkStatus>>, interfaces: map<Id, Item<InterfaceStatus>>,
             ghost linkInterfaces: map<string, string>, ghost owner: map<nat, string>)
    modifies clock
    ensures old(clock.time) <= clock.time
    ensures var es, groups := LinkEntries(deviceLinks, linkDump), AddressGroups(addressDump);
            && IsInverse(config.interfaces, linkInterfaces) && Owners(config, ByLinkName(es), groups, owner)
            && Collected(links, old(clock.time), clock.time, LinkSpec(config, es))
            && Collected(interfaces, old(clock.time), clock.time,
                         InterfaceSpec(config, linkInterfaces, es, groups, owner))
  {
    ghost var from := clock.time;
    ghost var es := LinkEntries(deviceLinks, linkDump);
    LinkEntriesFromKernel(deviceLinks, linkDump);
    FoldsHoldEntries(es);
    var inverse := Invert(config.interfaces);
    linkInterfaces := inverse;
    var mappedDevices, mappedLinks, networkLinks, unmapped := ReadLinkDump(clock, config, deviceLinks, linkDump);
    var missing;
    links, missing := AddUnmapped(clock, unmapped, config, inverse, networkLinks, from, LinkBase(es));
    var groups := GroupAddresses(addressDump);
    ghost var time := clock.time;
    interfaces, owner := BuildInterfaces(clock, config, mappedLinks, mappedDevices, groups, missing, inverse, es, from);
    CollectedLater(links, from, time, LinkSpec(config, es), clock.time);
  }

  lemma CollectedLater<T>(m: map<Id, Item<T>>, from: nat, to: nat, entries: set<Entry<T>>, to': nat)
    requires Collected(m, from, to, entries) && to <= to'
    ensures Collected(m, from, to', entries)
  {
  }
}

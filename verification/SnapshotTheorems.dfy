/** What every snapshot has: each dumped address once, and, when the configuration and the dump are
    valid, no two entries with a key in common and only one possible content. */
module SnapshotTheorems {
  import opened Wrappers
  import opened NetworkModel
  import opened NetlinkProcessor
  import opened Addresses
  import opened Snapshot

  // ----- Validity, which the source leaves to its operator -----

  /** No device is used by two links and no link by two interfaces. */
  ghost predicate ValidConfig(config: Config) {
    Injective(config.links) && Injective(config.interfaces)
  }

  /** The kernel reports each index and each device once. */
  ghost predicate ValidDump(es: seq<Entry<LinkStatus>>) {
    forall i, j :: 0 <= i < j < |es| ==>
      es[i].id.index != es[j].id.index && es[i].status.device != es[j].status.device
  }

  ghost predicate NamedByConfig(deviceLinks: map<string, string>, es: seq<Entry<LinkStatus>>) {
    forall e :: e in es ==>
      FromKernel(e)
      && e.status.name
         == if e.status.device in deviceLinks then Some(deviceLinks[e.status.device]) else None
  }

  lemma {:induction false} LinkEntriesNamed(deviceLinks: map<string, string>, dump: seq<Message>)
    ensures NamedByConfig(deviceLinks, LinkEntries(deviceLinks, dump))
  {
    if dump != [] {
      LinkEntriesNamed(deviceLinks, dump[..|dump| - 1]);
    }
  }

  lemma ValidDumpDistinct(es: seq<Entry<LinkStatus>>, e: Entry<LinkStatus>, f: Entry<LinkStatus>)
    requires ValidDump(es) && e in es && f in es
    ensures e.id.index == f.id.index || e.status.device == f.status.device ==> e == f
  {
  }

  ghost predicate Collisionless<T>(entries: set<Entry<T>>) {
    forall e, f :: e in entries && f in entries && e != f ==> !Shares(e.id, f.id)
  }

  // ----- No collisions -----

  lemma LinkSpecCollisionless(config: Config, deviceLinks: map<string, string>, es: seq<Entry<LinkStatus>>)
    requires ValidConfig(config) && IsInverse(config.links, deviceLinks)
    requires NamedByConfig(deviceLinks, es) && ValidDump(es)
    ensures Collisionless(LinkSpec(config, es))
  {
    FoldsHoldEntries(es);
    var spec := LinkSpec(config, es);
    forall e, f | e in spec && f in spec && e != f ensures !Shares(e.id, f.id) {
      if e in LinkBase(es) && f in LinkBase(es) {
        ValidDumpDistinct(es, e, f);
      } else if e in LinkBase(es) {
        DumpedVersusAbsent(config, deviceLinks, es, e, f.id.name.value);
      } else if f in LinkBase(es) {
        DumpedVersusAbsent(config, deviceLinks, es, f, e.id.name.value);
      }
    }
  }

  /** A dumped link has neither the name nor the device of a configured link that was not dumped. */
  lemma DumpedVersusAbsent(config: Config, deviceLinks: map<string, string>, es: seq<Entry<LinkStatus>>,
                           e: Entry<LinkStatus>, n: string)
    requires Injective(config.links) && IsInverse(config.links, deviceLinks)
    requires NamedByConfig(deviceLinks, es) && e in es
    requires n in config.links && n !in ByLinkName(es)
    ensures e.status.name != Some(n) && e.status.device != config.links[n]
  {
    FoldsHoldEntries(es);
  }

  /** The link a mapped interface stands on is a dumped one with that name. */
  lemma NamedLinkIsDumped(deviceLinks: map<string, string>, es: seq<Entry<LinkStatus>>, n: string)
    requires NamedByConfig(deviceLinks, es) && n in ByLinkName(es)
    ensures ByLinkName(es)[n] in es && ByLinkName(es)[n].status.name == Some(n)
    ensures ByLinkName(es)[n].id.device == Some(ByLinkName(es)[n].status.device)
    ensures ByLinkName(es)[n].id.index.Some?
  {
    FoldsHoldEntries(es);
  }

  /** Where an interface entry of the snapshot comes from. */
  datatype Source = Configured(name: string) | Leftover(index: nat)

  ghost predicate IsOrigin(config: Config, linkInterfaces: map<string, string>, es: seq<Entry<LinkStatus>>,
                           groups: map<nat, seq<IpAddress>>, owner: map<nat, string>, e: Entry<InterfaceStatus>,
                           s: Source)
  {
    match s
    case Configured(name) =>
      && name in config.interfaces
      && e == ConfiguredEntry(config, ByLinkName(es), groups, owner, name, AbsentState(config, linkInterfaces, name))
    case Leftover(i) =>
      i in groups && i !in owner && i in ByDeviceIndex(es) && e == LeftoverEntry(ByDeviceIndex(es), groups, i)
  }

  lemma Origin(config: Config, linkInterfaces: map<string, string>, es: seq<Entry<LinkStatus>>,
               groups: map<nat, seq<IpAddress>>, owner: map<nat, string>, e: Entry<InterfaceStatus>)
    returns (s: Source)
    requires e in InterfaceSpec(config, linkInterfaces, es, groups, owner)
    ensures IsOrigin(config, linkInterfaces, es, groups, owner, e, s)
  {
    if name :| name in config.interfaces
               && e == ConfiguredEntry(config, ByLinkName(es), groups, owner, name,
                                       AbsentState(config, linkInterfaces, name)) {
      s := Configured(name);
    } else {
      var i :| i in groups && i !in owner && i in ByDeviceIndex(es) && e == LeftoverEntry(ByDeviceIndex(es), groups, i);
      s := Leftover(i);
    }
  }

  /** The id an interface entry can have, in terms of what was dumped. */
  ghost predicate StandsOn(config: Config, es: seq<Entry<LinkStatus>>, groups: map<nat, seq<IpAddress>>,
                           owner: map<nat, string>, s: Source, id: Id)
  {
    match s
    case Configured(name) =>
      name in config.interfaces
      && var n := config.interfaces[name];
         if n in ByLinkName(es) then
           var l := ByLinkName(es)[n];
           && l in es && l.status.name == Some(n) && id == Id(l.id.index, Some(name), Some(l.status.device))
           && l.id.index.Some? && (l.id.index.value in groups ==> l.id.index.value in owner)
         else if n in config.links then id == Id(None, Some(name), Some(config.links[n]))
         else id == Id(None, Some(name), None)
    case Leftover(i) =>
      && i in groups && i !in owner && i in ByDeviceIndex(es)
      && var d := ByDeviceIndex(es)[i];
         d in es && d.id.index == Some(i) && id == Id(Some(i), None, Some(d.status.device))
  }

  lemma EntryStandsOn(config: Config, deviceLinks: map<string, string>, linkInterfaces: map<string, string>,
                      es: seq<Entry<LinkStatus>>, groups: map<nat, seq<IpAddress>>, owner: map<nat, string>,
                      e: Entry<InterfaceStatus>, s: Source)
    requires NamedByConfig(deviceLinks, es) && Owners(config, ByLinkName(es), groups, owner)
    requires IsOrigin(config, linkInterfaces, es, groups, owner, e, s)
    ensures StandsOn(config, es, groups, owner, s, e.id)
  {
    match s
    case Configured(name) =>
      var n := config.interfaces[name];
      if n in ByLinkName(es) {
        NamedLinkIsDumped(deviceLinks, es, n);
        assert InterfaceIndex(config, ByLinkName(es), name) == ByLinkName(es)[n].id.index;
      }
    case Leftover(i) =>
      FoldsHoldEntries(es);
  }

  lemma ConfiguredApart(config: Config, deviceLinks: map<string, string>, es: seq<Entry<LinkStatus>>,
                        groups: map<nat, seq<IpAddress>>, owner: map<nat, string>, a: Source, b: Source, i: Id, j: Id)
    requires ValidConfig(config) && IsInverse(config.links, deviceLinks)
    requires NamedByConfig(deviceLinks, es) && ValidDump(es)
    requires a.Configured? && b.Configured? && a != b
    requires StandsOn(config, es, groups, owner, a, i) && StandsOn(config, es, groups, owner, b, j)
    ensures !Shares(i, j)
  {
    var named := ByLinkName(es);
    var m, n := config.interfaces[a.name], config.interfaces[b.name];
    if m in named && n in named {
      ValidDumpDistinct(es, named[m], named[n]);
    } else if m in named && n in config.links {
      DumpedVersusAbsent(config, deviceLinks, es, named[m], n);
    } else if n in named && m in config.links {
      DumpedVersusAbsent(config, deviceLinks, es, named[n], m);
    }
  }

  lemma ConfiguredLeftoverApart(config: Config, deviceLinks: map<string, string>, es: seq<Entry<LinkStatus>>,
                                groups: map<nat, seq<IpAddress>>, owner: map<nat, string>, a: Source, b: Source, i: Id,
                                j: Id)
    requires ValidConfig(config) && IsInverse(config.links, deviceLinks)
    requires NamedByConfig(deviceLinks, es) && ValidDump(es)
    requires a.Configured? && b.Leftover?
    requires StandsOn(config, es, groups, owner, a, i) && StandsOn(config, es, groups, owner, b, j)
    ensures !Shares(i, j)
  {
    var named, d := ByLinkName(es), ByDeviceIndex(es)[b.index];
    var n := config.interfaces[a.name];
    if n in named {
      ValidDumpDistinct(es, named[n], d);
    } else if n in config.links {
      DumpedVersusAbsent(config, deviceLinks, es, d, n);
    }
  }

  lemma LeftoversApart(config: Config, es: seq<Entry<LinkStatus>>, groups: map<nat, seq<IpAddress>>,
                       owner: map<nat, string>, a: Source, b: Source, i: Id, j: Id)
    requires ValidDump(es) && a.Leftover? && b.Leftover? && a != b
    requires StandsOn(config, es, groups, owner, a, i) && StandsOn(config, es, groups, owner, b, j)
    ensures !Shares(i, j)
  {
    ValidDumpDistinct(es, ByDeviceIndex(es)[a.index], ByDeviceIndex(es)[b.index]);
  }

  lemma InterfaceSpecCollisionless(config: Config, deviceLinks: map<string, string>,
                                   linkInterfaces: map<string, string>,
                                   es: seq<Entry<LinkStatus>>, groups: map<nat, seq<IpAddress>>,
                                   owner: map<nat, string>)
    requires ValidConfig(config) && IsInverse(config.links, deviceLinks)
    requires NamedByConfig(deviceLinks, es) && ValidDump(es)
    requires Owners(config, ByLinkName(es), groups, owner)
    ensures Collisionless(InterfaceSpec(config, linkInterfaces, es, groups, owner))
  {
    var spec := InterfaceSpec(config, linkInterfaces, es, groups, owner);
    forall e, f | e in spec && f in spec && e != f ensures !Shares(e.id, f.id) {
      var a := Origin(config, linkInterfaces, es, groups, owner, e);
      var b := Origin(config, linkInterfaces, es, groups, owner, f);
      EntryStandsOn(config, deviceLinks, linkInterfaces, es, groups, owner, e, a);
      EntryStandsOn(config, deviceLinks, linkInterfaces, es, groups, owner, f, b);
      if a.Configured? && b.Configured? {
        ConfiguredApart(config, deviceLinks, es, groups, owner, a, b, e.id, f.id);
      } else if a.Configured? {
        ConfiguredLeftoverApart(config, deviceLinks, es, groups, owner, a, b, e.id, f.id);
      } else if b.Configured? {
        ConfiguredLeftoverApart(config, deviceLinks, es, groups, owner, b, a, f.id, e.id);
      } else {
        LeftoversApart(config, es, groups, owner, a, b, e.id, f.id);
      }
    }
  }

  /** Items collected from collisionless entries do not collide. */
  lemma CollectedCollisionFree<T>(m: map<Id, Item<T>>, from: nat, to: nat, entries: set<Entry<T>>)
    requires Collected(m, from, to, entries) && Collisionless(entries)
    ensures CollisionFree(set id | id in m :: m[id])
  {
    forall i, j | i in m && j in m && m[i] != m[j] ensures !Shares(m[i].id, m[j].id) {
      assert Entry(m[i].id, m[i].status) in entries && Entry(m[j].id, m[j].status) in entries;
    }
  }

  // ----- Address conservation, for every configuration and every dump -----

  ghost function ReportedFor(dump: seq<Message>, i: nat): seq<IpAddress> {
    if dump == [] then []
    else
      var before := ReportedFor(dump[..|dump| - 1], i);
      match AddressReport(dump[|dump| - 1])
      case None => before
      case Some((index, a)) => if index == i then before + [a] else before
  }

  lemma {:induction false} GroupsAreReports(dump: seq<Message>, i: nat)
    ensures i in AddressGroups(dump) <==> ReportedFor(dump, i) != []
    ensures i in AddressGroups(dump) ==> AddressGroups(dump)[i] == ReportedFor(dump, i)
  {
    if dump != [] {
      GroupsAreReports(dump[..|dump| - 1], i);
    }
  }

  /** The addresses dumped for a dumped index are, with their multiplicity and sorted, the
      addresses of exactly one interface entry; every other entry of the index has none. */
  lemma AddressesConserved(config: Config, linkInterfaces: map<string, string>, es: seq<Entry<LinkStatus>>,
                           addressDump: seq<Message>, owner: map<nat, string>, i: nat)
    returns (e: Entry<InterfaceStatus>)
    requires Owners(config, ByLinkName(es), AddressGroups(addressDump), owner)
    requires forall e :: e in es ==> FromKernel(e)
    requires ReportedFor(addressDump, i) != [] && i in ByDeviceIndex(es)
    ensures var spec := InterfaceSpec(config, linkInterfaces, es, AddressGroups(addressDump), owner);
            && e in spec && e.id.index == Some(i)
            && Sorted(e.status.addresses)
            && multiset(e.status.addresses) == multiset(ReportedFor(addressDump, i))
            && forall f :: f in spec && f != e && f.id.index == Some(i) ==> f.status.addresses == []
  {
    var groups := AddressGroups(addressDump);
    var spec := InterfaceSpec(config, linkInterfaces, es, groups, owner);
    GroupsAreReports(addressDump, i);
    SortSorts(groups[i]);
    e := Receiver(config, linkInterfaces, es, groups, owner, i);
    forall f | f in spec && f != e && f.id.index == Some(i) ensures f.status.addresses == [] {
      var s := Origin(config, linkInterfaces, es, groups, owner, f);
      OnlyReceiver(config, linkInterfaces, es, groups, owner, i, f, s);
    }
  }

  /** The entry that receives the addresses of an index. */
  ghost function Receiver(config: Config, linkInterfaces: map<string, string>, es: seq<Entry<LinkStatus>>,
                          groups: map<nat, seq<IpAddress>>, owner: map<nat, string>,
                          i: nat): (e: Entry<InterfaceStatus>)
    requires Owners(config, ByLinkName(es), groups, owner)
    requires i in groups && i in ByDeviceIndex(es)
    ensures e in InterfaceSpec(config, linkInterfaces, es, groups, owner)
    ensures e.id.index == Some(i) && e.status.addresses == Sort(groups[i])
  {
    if i in owner then
      ConfiguredEntry(config, ByLinkName(es), groups, owner, owner[i], AbsentState(config, linkInterfaces, owner[i]))
    else
      LeftoverEntry(ByDeviceIndex(es), groups, i)
  }

  lemma OnlyReceiver(config: Config, linkInterfaces: map<string, string>, es: seq<Entry<LinkStatus>>,
                     groups: map<nat, seq<IpAddress>>, owner: map<nat, string>, i: nat, f: Entry<InterfaceStatus>,
                     s: Source)
    requires Owners(config, ByLinkName(es), groups, owner)
    requires i in groups && i in ByDeviceIndex(es)
    requires IsOrigin(config, linkInterfaces, es, groups, owner, f, s)
    requires f.id.index == Some(i) && f != Receiver(config, linkInterfaces, es, groups, owner, i)
    ensures f.status.addresses == []
  {
    if s.Configured? {
      assert InterfaceIndex(config, ByLinkName(es), s.name) == Some(i);
    }
  }

  /** No other address appears. */
  lemma NoOtherAddresses(config: Config, linkInterfaces: map<string, string>, es: seq<Entry<LinkStatus>>,
                         addressDump: seq<Message>, owner: map<nat, string>, e: Entry<InterfaceStatus>)
    requires Owners(config, ByLinkName(es), AddressGroups(addressDump), owner)
    requires forall e :: e in es ==> FromKernel(e)
    requires e in InterfaceSpec(config, linkInterfaces, es, AddressGroups(addressDump), owner)
    requires e.status.addresses != []
    ensures e.id.index.Some? && e.id.index.value in ByDeviceIndex(es)
    ensures multiset(e.status.addresses) == multiset(ReportedFor(addressDump, e.id.index.value))
  {
    var groups := AddressGroups(addressDump);
    FoldsHoldEntries(es);
    var s := Origin(config, linkInterfaces, es, groups, owner, e);
    GroupsAreReports(addressDump, e.id.index.value);
    if s.Configured? {
      var link := ByLinkName(es)[config.interfaces[s.name]];
      assert link in es && link.id.index.value in ByDeviceIndex(es);
    }
  }

  // ----- One possible content -----

  lemma OwnersDetermined(config: Config, deviceLinks: map<string, string>, es: seq<Entry<LinkStatus>>,
                         groups: map<nat, seq<IpAddress>>, owner: map<nat, string>, owner': map<nat, string>)
    requires ValidConfig(config) && NamedByConfig(deviceLinks, es) && ValidDump(es)
    requires Owners(config, ByLinkName(es), groups, owner) && Owners(config, ByLinkName(es), groups, owner')
    ensures owner == owner'
  {
    var named := ByLinkName(es);
    forall i | i in owner ensures i in owner' && owner'[i] == owner[i] {
      SameIndexSameInterface(config, deviceLinks, es, owner[i], owner'[i]);
    }
    forall i | i in owner' ensures i in owner {
      assert InterfaceIndex(config, named, owner'[i]) == Some(i);
    }
  }

  lemma SameIndexSameInterface(config: Config, deviceLinks: map<string, string>, es: seq<Entry<LinkStatus>>, a: string,
                               b: string)
    requires ValidConfig(config) && NamedByConfig(deviceLinks, es) && ValidDump(es)
    requires a in config.interfaces && b in config.interfaces
    requires InterfaceIndex(config, ByLinkName(es), a).Some?
    requires InterfaceIndex(config, ByLinkName(es), a) == InterfaceIndex(config, ByLinkName(es), b)
    ensures a == b
  {
    var m, n := config.interfaces[a], config.interfaces[b];
    NamedLinkIsDumped(deviceLinks, es, m);
    NamedLinkIsDumped(deviceLinks, es, n);
    ValidDumpDistinct(es, ByLinkName(es)[m], ByLinkName(es)[n]);
  }

  /** For a valid configuration and dump, no order in which the maps are read shows in a snapshot. */
  lemma SnapshotDetermined(config: Config, dump: seq<Message>, groups: map<nat, seq<IpAddress>>,
                           deviceLinks: map<string, string>, linkInterfaces: map<string, string>,
                           owner: map<nat, string>,
                           deviceLinks': map<string, string>, linkInterfaces': map<string, string>,
                           owner': map<nat, string>)
    requires ValidConfig(config) && ValidDump(LinkEntries(deviceLinks, dump))
    requires IsInverse(config.links, deviceLinks) && IsInverse(config.links, deviceLinks')
    requires IsInverse(config.interfaces, linkInterfaces) && IsInverse(config.interfaces, linkInterfaces')
    requires Owners(config, ByLinkName(LinkEntries(deviceLinks, dump)), groups, owner)
    requires Owners(config, ByLinkName(LinkEntries(deviceLinks', dump)), groups, owner')
    ensures LinkSpec(config, LinkEntries(deviceLinks, dump)) == LinkSpec(config, LinkEntries(deviceLinks', dump))
    ensures InterfaceSpec(config, linkInterfaces, LinkEntries(deviceLinks, dump), groups, owner)
         == InterfaceSpec(config, linkInterfaces', LinkEntries(deviceLinks', dump), groups, owner')
  {
    InverseOfInjective(config.links, deviceLinks, deviceLinks');
    InverseOfInjective(config.interfaces, linkInterfaces, linkInterfaces');
    LinkEntriesNamed(deviceLinks, dump);
    OwnersDetermined(config, deviceLinks, LinkEntries(deviceLinks, dump), groups, owner, owner');
  }

  /** The link entries without a dump: every configured link is missing. */
  lemma EmptyDumpEntries(config: Config)
    ensures LinkSpec(config, []) == set n | n in config.links :: MissingLink(n, config.links[n])
  {
    assert Unmapped(config, ByLinkName([])) == config.links;
  }

  /** Without a dump the links' devices must be distinct, or two missing links collide. */
  lemma EmptyDumpNeedsDistinctDevices(config: Config)
    ensures Collisionless(LinkSpec(config, [])) <==> Injective(config.links)
  {
    EmptyDumpEntries(config);
    if !Injective(config.links) {
      var m, n :| m in config.links && n in config.links && config.links[m] == config.links[n] && m != n;
      var e, f := MissingLink(m, config.links[m]), MissingLink(n, config.links[n]);
      assert e in LinkSpec(config, []) && f in LinkSpec(config, []) && e != f && Shares(e.id, f.id);
    }
  }
}

/** What a snapshot shows, said of the kernel's messages and the configuration themselves. */
module SnapshotContents {
  import opened Wrappers
  import opened NetworkModel
  import opened NetlinkProcessor
  import opened Addresses
  import opened Snapshot
  import opened SnapshotTheorems

  // ----- From messages to entries -----

  ghost function EntryOf(deviceLinks: map<string, string>, m: Message): Option<Entry<LinkStatus>> {
    match LinkReport(deviceLinks, m)
    case None => None
    case Some((index, s)) => Some(Entry(LinkId(index, s), s))
  }

  lemma EntryOfIff(deviceLinks: map<string, string>, m: Message, i: nat, s: LinkStatus)
    ensures EntryOf(deviceLinks, m) == Some(Entry(Id(Some(i), s.name, Some(s.device)), s))
       <==> ReportsLink(deviceLinks, m, i, s)
  {
    LinkReportIff(deviceLinks, m, i, s);
  }

  lemma EntryOfReports(deviceLinks: map<string, string>, m: Message, e: Entry<LinkStatus>)
    requires EntryOf(deviceLinks, m) == Some(e)
    ensures e.id.index.Some? && e.id == Id(e.id.index, e.status.name, Some(e.status.device))
    ensures ReportsLink(deviceLinks, m, e.id.index.value, e.status)
  {
    EntryOfIff(deviceLinks, m, e.id.index.value, e.status);
  }

  lemma {:induction false} EntriesAreReported(deviceLinks: map<string, string>, dump: seq<Message>,
                                             e: Entry<LinkStatus>)
    ensures e in LinkEntries(deviceLinks, dump)
       <==> exists k :: 0 <= k < |dump| && EntryOf(deviceLinks, dump[k]) == Some(e)
  {
    if dump != [] {
      var n := |dump| - 1;
      EntriesAreReported(deviceLinks, dump[..n], e);
      if k :| 0 <= k < n && EntryOf(deviceLinks, dump[..n][k]) == Some(e) {
        assert EntryOf(deviceLinks, dump[k]) == Some(e);
      }
      if k :| 0 <= k < |dump| && EntryOf(deviceLinks, dump[k]) == Some(e) {
        assert k == n || dump[..n][k] == dump[k];
      }
    }
  }

  ghost predicate LastOf(deviceLinks: map<string, string>, dump: seq<Message>, k: nat, e: Entry<LinkStatus>) {
    && k < |dump| && EntryOf(deviceLinks, dump[k]) == Some(e)
    && forall j :: k < j < |dump| && EntryOf(deviceLinks, dump[j]).Some? ==>
         EntryOf(deviceLinks, dump[j]).value.id != e.id
  }

  lemma LastOfExtends(deviceLinks: map<string, string>, before: seq<Message>, m: Message, e: Entry<LinkStatus>)
    ensures (exists k :: LastOf(deviceLinks, before + [m], k, e))
       <==> EntryOf(deviceLinks, m) == Some(e)
            || ((exists k :: LastOf(deviceLinks, before, k, e))
                && (EntryOf(deviceLinks, m).Some? ==> EntryOf(deviceLinks, m).value.id != e.id))
  {
    var dump, n := before + [m], |before|;
    assert dump[n] == m && forall j :: 0 <= j < n ==> dump[j] == before[j];
    if EntryOf(deviceLinks, m) == Some(e) {
      assert LastOf(deviceLinks, dump, n, e);
    }
    if k :| LastOf(deviceLinks, before, k, e) {
      assert (EntryOf(deviceLinks, m).Some? ==> EntryOf(deviceLinks, m).value.id != e.id)
        ==> LastOf(deviceLinks, dump, k, e);
    }
    if k: nat :| LastOf(deviceLinks, dump, k, e) && k != n {
      assert LastOf(deviceLinks, before, k, e);
    }
  }

  /** Of several messages about one link the last counts. */
  lemma {:induction false} BaseIsLast(deviceLinks: map<string, string>, dump: seq<Message>, e: Entry<LinkStatus>)
    ensures e in LinkBase(LinkEntries(deviceLinks, dump)) <==> exists k :: LastOf(deviceLinks, dump, k, e)
  {
    if dump != [] {
      var n := |dump| - 1;
      var before, m := dump[..n], dump[n];
      assert dump == before + [m];
      BaseIsLast(deviceLinks, before, e);
      LastOfExtends(deviceLinks, before, m, e);
      BaseExtends(deviceLinks, before, m, e);
    }
  }

  lemma BaseExtends(deviceLinks: map<string, string>, before: seq<Message>, m: Message, e: Entry<LinkStatus>)
    ensures e in LinkBase(LinkEntries(deviceLinks, before + [m]))
       <==> EntryOf(deviceLinks, m) == Some(e)
            || (e in LinkBase(LinkEntries(deviceLinks, before))
                && (EntryOf(deviceLinks, m).Some? ==> EntryOf(deviceLinks, m).value.id != e.id))
  {
    var es := LinkEntries(deviceLinks, before);
    assert (before + [m])[..|before|] == before;
    LinkEntriesFromKernel(deviceLinks, before);
    FoldsHoldEntries(es);
    if EntryOf(deviceLinks, m).Some? {
      var f := EntryOf(deviceLinks, m).value;
      FoldsExtend(es, f);
      assert ById(es + [f]) == ById(es)[f.id := f];
      assert f.id in ById(es + [f]);
      assert forall id :: id in ById(es) && id != f.id ==> id in ById(es + [f]) && ById(es + [f])[id] == ById(es)[id];
    }
  }

  // ----- The links of a snapshot, for every configuration and dump -----

  /** Message `k` is the last one about the link on `i` that has the device of `s`. */
  ghost predicate LastReport(deviceLinks: map<string, string>, dump: seq<Message>, k: nat, i: nat, s: LinkStatus) {
    && k < |dump| && ReportsLink(deviceLinks, dump[k], i, s)
    && forall j, t :: k < j < |dump| && ReportsLink(deviceLinks, dump[j], i, t) ==> t.device != s.device
  }

  ghost predicate NamedIn(deviceLinks: map<string, string>, dump: seq<Message>, name: string) {
    exists k, i, s :: 0 <= k < |dump| && ReportsLink(deviceLinks, dump[k], i, s) && s.name == Some(name)
  }

  ghost predicate ShownDumped(deviceLinks: map<string, string>, dump: seq<Message>, e: Entry<LinkStatus>) {
    && e.id.index.Some? && e.id == Id(e.id.index, e.status.name, Some(e.status.device))
    && exists k :: LastReport(deviceLinks, dump, k, e.id.index.value, e.status)
  }

  ghost predicate ShownAbsent(config: Config, deviceLinks: map<string, string>, dump: seq<Message>,
                              e: Entry<LinkStatus>)
  {
    exists n :: n in config.links && !NamedIn(deviceLinks, dump, n)
                && e == Entry(Id(None, Some(n), Some(config.links[n])),
                              LinkStatus(Some(n), config.links[n], NotFound))
  }

  lemma LastIff(deviceLinks: map<string, string>, dump: seq<Message>, k: nat, e: Entry<LinkStatus>)
    ensures LastOf(deviceLinks, dump, k, e)
       <==> e.id.index.Some? && e.id == Id(e.id.index, e.status.name, Some(e.status.device))
            && LastReport(deviceLinks, dump, k, e.id.index.value, e.status)
  {
    if LastOf(deviceLinks, dump, k, e) {
      EntryOfReports(deviceLinks, dump[k], e);
      var i, s := e.id.index.value, e.status;
      forall j, t | k < j < |dump| && ReportsLink(deviceLinks, dump[j], i, t) ensures t.device != s.device {
        EntryOfIff(deviceLinks, dump[j], i, t);
      }
    }
    if e.id.index.Some? && e.id == Id(e.id.index, e.status.name, Some(e.status.device))
       && LastReport(deviceLinks, dump, k, e.id.index.value, e.status) {
      EntryOfIff(deviceLinks, dump[k], e.id.index.value, e.status);
      forall j | k < j < |dump| && EntryOf(deviceLinks, dump[j]).Some?
        ensures EntryOf(deviceLinks, dump[j]).value.id != e.id
      {
        EntryOfReports(deviceLinks, dump[j], EntryOf(deviceLinks, dump[j]).value);
      }
    }
  }

  lemma NamedIff(deviceLinks: map<string, string>, dump: seq<Message>, name: string)
    ensures NamedIn(deviceLinks, dump, name) <==> name in ByLinkName(LinkEntries(deviceLinks, dump))
  {
    var es := LinkEntries(deviceLinks, dump);
    LinkEntriesFromKernel(deviceLinks, dump);
    FoldsHoldEntries(es);
    if name in ByLinkName(es) {
      var e := ByLinkName(es)[name];
      EntriesAreReported(deviceLinks, dump, e);
      var k :| 0 <= k < |dump| && EntryOf(deviceLinks, dump[k]) == Some(e);
      EntryOfReports(deviceLinks, dump[k], e);
    }
    if NamedIn(deviceLinks, dump, name) {
      var k, i, s :| 0 <= k < |dump| && ReportsLink(deviceLinks, dump[k], i, s) && s.name == Some(name);
      var e := Entry(Id(Some(i), s.name, Some(s.device)), s);
      EntryOfIff(deviceLinks, dump[k], i, s);
      EntriesAreReported(deviceLinks, dump, e);
    }
  }

  lemma DumpedIff(deviceLinks: map<string, string>, dump: seq<Message>, e: Entry<LinkStatus>)
    ensures e in LinkBase(LinkEntries(deviceLinks, dump)) <==> ShownDumped(deviceLinks, dump, e)
  {
    BaseIsLast(deviceLinks, dump, e);
    if k: nat :| LastOf(deviceLinks, dump, k, e) {
      LastIff(deviceLinks, dump, k, e);
    }
    if ShownDumped(deviceLinks, dump, e) {
      var k :| LastReport(deviceLinks, dump, k, e.id.index.value, e.status);
      LastIff(deviceLinks, dump, k, e);
    }
  }

  /** The links of a snapshot are exactly the last report of each dumped link and, as not found, the
      configured links that no message names. */
  lemma LinksShown(config: Config, deviceLinks: map<string, string>, dump: seq<Message>, e: Entry<LinkStatus>)
    ensures e in LinkSpec(config, LinkEntries(deviceLinks, dump))
       <==> ShownDumped(deviceLinks, dump, e) || ShownAbsent(config, deviceLinks, dump, e)
  {
    var es := LinkEntries(deviceLinks, dump);
    DumpedIff(deviceLinks, dump, e);
    forall n: string ensures NamedIn(deviceLinks, dump, n) <==> n in ByLinkName(es) {
      NamedIff(deviceLinks, dump, n);
    }
    var unmapped := Unmapped(config, ByLinkName(es));
    assert forall n :: n in config.links && !NamedIn(deviceLinks, dump, n) <==> n in unmapped;
    if ShownAbsent(config, deviceLinks, dump, e) {
      var n :| n in config.links && !NamedIn(deviceLinks, dump, n)
               && e == Entry(Id(None, Some(n), Some(config.links[n])), LinkStatus(Some(n), config.links[n], NotFound));
      assert n in unmapped && e == MissingLink(n, unmapped[n]);
    }
  }

  // ----- Valid dumps -----

  /** No two messages report the same index or the same device. */
  ghost predicate DistinctReports(deviceLinks: map<string, string>, dump: seq<Message>) {
    forall j, k, i, i', s, s' ::
      0 <= j < k < |dump| && ReportsLink(deviceLinks, dump[j], i, s) && ReportsLink(deviceLinks, dump[k], i', s')
      ==> i != i' && s.device != s'.device
  }

  lemma {:induction false} DistinctIsValid(deviceLinks: map<string, string>, dump: seq<Message>)
    requires DistinctReports(deviceLinks, dump)
    ensures ValidDump(LinkEntries(deviceLinks, dump))
  {
    if dump != [] {
      var n := |dump| - 1;
      assert forall k :: 0 <= k < n ==> dump[..n][k] == dump[k];
      DistinctIsValid(deviceLinks, dump[..n]);
      if EntryOf(deviceLinks, dump[n]).Some? {
        var e := EntryOf(deviceLinks, dump[n]).value;
        EntryOfReports(deviceLinks, dump[n], e);
        forall f | f in LinkEntries(deviceLinks, dump[..n])
          ensures f.id.index != e.id.index && f.status.device != e.status.device
        {
          EntriesAreReported(deviceLinks, dump[..n], f);
          var k :| 0 <= k < n && EntryOf(deviceLinks, dump[..n][k]) == Some(f);
          EntryOfReports(deviceLinks, dump[k], f);
        }
      }
    }
  }

  /** Every link of a valid dump is shown, as the message reports it. */
  lemma DumpedLinkShown(config: Config, deviceLinks: map<string, string>, dump: seq<Message>, k: nat, i: nat,
                        s: LinkStatus)
    requires DistinctReports(deviceLinks, dump) && k < |dump| && ReportsLink(deviceLinks, dump[k], i, s)
    ensures Entry(Id(Some(i), s.name, Some(s.device)), s) in LinkSpec(config, LinkEntries(deviceLinks, dump))
  {
    assert LastReport(deviceLinks, dump, k, i, s);
    LinksShown(config, deviceLinks, dump, Entry(Id(Some(i), s.name, Some(s.device)), s));
  }

  lemma EntryMeans(deviceLinks: map<string, string>, dump: seq<Message>, e: Entry<LinkStatus>)
    ensures e in LinkEntries(deviceLinks, dump)
       <==> e.id.index.Some? && e.id == Id(e.id.index, e.status.name, Some(e.status.device))
            && exists k :: 0 <= k < |dump| && ReportsLink(deviceLinks, dump[k], e.id.index.value, e.status)
  {
    EntriesAreReported(deviceLinks, dump, e);
    if k :| 0 <= k < |dump| && EntryOf(deviceLinks, dump[k]) == Some(e) {
      EntryOfReports(deviceLinks, dump[k], e);
    }
    if e.id.index.Some? && e.id == Id(e.id.index, e.status.name, Some(e.status.device)) {
      if k :| 0 <= k < |dump| && ReportsLink(deviceLinks, dump[k], e.id.index.value, e.status) {
        EntryOfIff(deviceLinks, dump[k], e.id.index.value, e.status);
      }
    }
  }

  // ----- Addresses, counted message by message -----

  ghost function Reporting(dump: seq<Message>, i: nat, a: IpAddress): set<nat> {
    set k | 0 <= k < |dump| && ReportsAddress(dump[k], i, a)
  }

  /** Sorted, and each address as often as messages report it for the index. */
  ghost predicate AddressesOf(dump: seq<Message>, i: nat, list: seq<IpAddress>) {
    Sorted(list) && forall a :: multiset(list)[a] == |Reporting(dump, i, a)|
  }

  ghost predicate HasAddress(dump: seq<Message>, i: nat) {
    exists k, a :: 0 <= k < |dump| && ReportsAddress(dump[k], i, a)
  }

  lemma ReportingExtends(before: seq<Message>, m: Message, i: nat, a: IpAddress)
    ensures |Reporting(before + [m], i, a)|
         == |Reporting(before, i, a)| + if ReportsAddress(m, i, a) then 1 else 0
  {
    var dump, n := before + [m], |before|;
    forall k: nat
      ensures k in Reporting(dump, i, a) <==> k in Reporting(before, i, a) || (ReportsAddress(m, i, a) && k == n)
    {
      if k < n {
        assert before[k] == dump[k];
      }
    }
    OneMoreMember(Reporting(before, i, a), Reporting(dump, i, a), n, ReportsAddress(m, i, a));
  }

  lemma OneMoreMember(s: set<nat>, t: set<nat>, n: nat, more: bool)
    requires n !in s && forall k: nat :: k in t <==> k in s || (more && k == n)
    ensures |t| == |s| + if more then 1 else 0
  {
    assert t == if more then s + {n} else s;
  }

  lemma ReportedForExtends(before: seq<Message>, m: Message, i: nat, a: IpAddress)
    ensures multiset(ReportedFor(before + [m], i))[a]
         == multiset(ReportedFor(before, i))[a] + if AddressReport(m) == Some((i, a)) then 1 else 0
  {
    assert (before + [m])[..|before|] == before;
  }

  lemma {:induction false} ReportedCount(dump: seq<Message>, i: nat, a: IpAddress)
    ensures multiset(ReportedFor(dump, i))[a] == |Reporting(dump, i, a)|
  {
    if dump == [] {
      assert Reporting(dump, i, a) == {};
    } else {
      var n := |dump| - 1;
      assert dump == dump[..n] + [dump[n]];
      ReportedCount(dump[..n], i, a);
      AddressReportIff(dump[n], i, a);
      ReportingExtends(dump[..n], dump[n], i, a);
      ReportedForExtends(dump[..n], dump[n], i, a);
    }
  }

  lemma SortedReports(dump: seq<Message>, i: nat, list: seq<IpAddress>)
    ensures AddressesOf(dump, i, list) <==> list == Sort(ReportedFor(dump, i))
  {
    var reported := ReportedFor(dump, i);
    SortSorts(reported);
    forall a: IpAddress ensures multiset(reported)[a] == |Reporting(dump, i, a)| {
      ReportedCount(dump, i, a);
    }
    if AddressesOf(dump, i, list) {
      assert multiset(list) == multiset(reported);
      SortedIsUnique(list, Sort(reported));
    }
  }

  lemma {:induction false} HasAddressIff(dump: seq<Message>, i: nat)
    ensures HasAddress(dump, i) <==> ReportedFor(dump, i) != []
  {
    if dump != [] {
      var n := |dump| - 1;
      var before := dump[..n];
      HasAddressIff(before, i);
      assert forall k :: 0 <= k < n ==> before[k] == dump[k];
      if AddressReport(dump[n]).Some? {
        var (j, a) := AddressReport(dump[n]).value;
        AddressReportIff(dump[n], j, a);
      }
      if k, a :| 0 <= k < |dump| && ReportsAddress(dump[k], i, a) {
        AddressReportIff(dump[k], i, a);
        assert k < n ==> ReportsAddress(before[k], i, a);
      }
      if k, a :| 0 <= k < n && ReportsAddress(before[k], i, a) {
        assert ReportsAddress(dump[k], i, a);
      }
    }
  }

  // ----- The interfaces of a snapshot, for valid configurations and dumps -----

  /** The configured interface `name` on a dumped link: the link's status and the index's addresses. */
  ghost predicate ShownOnLink(config: Config, deviceLinks: map<string, string>, linkDump: seq<Message>,
                              addressDump: seq<Message>, name: string, e: Entry<InterfaceStatus>)
  {
    && name in config.interfaces && e.status.name == Some(name)
    && e.id.index.Some? && e.id == Id(e.id.index, Some(name), Some(e.status.link.device))
    && e.status.link.name == Some(config.interfaces[name])
    && (exists k :: 0 <= k < |linkDump| && ReportsLink(deviceLinks, linkDump[k], e.id.index.value, e.status.link))
    && AddressesOf(addressDump, e.id.index.value, e.status.addresses)
  }

  /** The configured interface `name` on a configured link that no message names, or on no link. */
  ghost predicate ShownWithoutLink(config: Config, deviceLinks: map<string, string>, linkDump: seq<Message>,
                                   name: string, e: Entry<InterfaceStatus>)
  {
    && name in config.interfaces
    && var n := config.interfaces[name];
       if n in config.links then
         && !NamedIn(deviceLinks, linkDump, n)
         && e == Entry(Id(None, Some(name), Some(config.links[n])),
                       InterfaceStatus(Some(name), [], LinkStatus(Some(n), config.links[n], NotFound)))
       else
         e == Entry(Id(None, Some(name), None),
                    InterfaceStatus(Some(name), [], LinkStatus(Some(n), "", Misconfigured)))
  }

  /** The unnamed interface of a dumped link that has addresses and no configured interface. */
  ghost predicate ShownUnnamed(config: Config, deviceLinks: map<string, string>, linkDump: seq<Message>,
                               addressDump: seq<Message>, e: Entry<InterfaceStatus>)
  {
    && e.status.name == None && e.id.index.Some? && e.id == Id(e.id.index, None, Some(e.status.link.device))
    && (exists k :: 0 <= k < |linkDump| && ReportsLink(deviceLinks, linkDump[k], e.id.index.value, e.status.link))
    && (forall name :: name in config.interfaces ==> e.status.link.name != Some(config.interfaces[name]))
    && HasAddress(addressDump, e.id.index.value) && AddressesOf(addressDump, e.id.index.value, e.status.addresses)
  }

  /** In a valid dump one link at most has a configured name. */
  lemma OneLinkPerName(config: Config, deviceLinks: map<string, string>, es: seq<Entry<LinkStatus>>,
                       l: Entry<LinkStatus>, n: string)
    requires IsInverse(config.links, deviceLinks) && NamedByConfig(deviceLinks, es) && ValidDump(es)
    requires l in es && l.status.name == Some(n)
    ensures n in config.links && n in ByLinkName(es) && ByLinkName(es)[n] == l
  {
    FoldsHoldEntries(es);
    ValidDumpDistinct(es, l, ByLinkName(es)[n]);
  }

  lemma TakenIsReported(config: Config, deviceLinks: map<string, string>, es: seq<Entry<LinkStatus>>,
                        addressDump: seq<Message>, owner: map<nat, string>, name: string, i: nat)
    requires ValidConfig(config) && NamedByConfig(deviceLinks, es) && ValidDump(es)
    requires Owners(config, ByLinkName(es), AddressGroups(addressDump), owner)
    requires name in config.interfaces && InterfaceIndex(config, ByLinkName(es), name) == Some(i)
    ensures TakenAddresses(config, ByLinkName(es), AddressGroups(addressDump), owner, name)
         == Sort(ReportedFor(addressDump, i))
  {
    GroupsAreReports(addressDump, i);
    if i in AddressGroups(addressDump) {
      SameIndexSameInterface(config, deviceLinks, es, name, owner[i]);
    }
  }

  lemma OnLinkIff(config: Config, deviceLinks: map<string, string>, linkDump: seq<Message>, addressDump: seq<Message>,
                  owner: map<nat, string>, name: string, absent: OperationalState, e: Entry<InterfaceStatus>)
    requires ValidConfig(config) && IsInverse(config.links, deviceLinks) && DistinctReports(deviceLinks, linkDump)
    requires var es := LinkEntries(deviceLinks, linkDump);
             && Owners(config, ByLinkName(es), AddressGroups(addressDump), owner)
             && name in config.interfaces && config.interfaces[name] in ByLinkName(es)
    ensures e == ConfiguredEntry(config, ByLinkName(LinkEntries(deviceLinks, linkDump)), AddressGroups(addressDump),
                                 owner, name, absent)
       <==> ShownOnLink(config, deviceLinks, linkDump, addressDump, name, e)
  {
    var es := LinkEntries(deviceLinks, linkDump);
    LinkEntriesNamed(deviceLinks, linkDump);
    DistinctIsValid(deviceLinks, linkDump);
    FoldsHoldEntries(es);
    var l := ByLinkName(es)[config.interfaces[name]];
    var i := l.id.index.value;
    EntryMeans(deviceLinks, linkDump, l);
    TakenIsReported(config, deviceLinks, es, addressDump, owner, name, i);
    SortedReports(addressDump, i, e.status.addresses);
    if ShownOnLink(config, deviceLinks, linkDump, addressDump, name, e) {
      var m := Entry(Id(e.id.index, e.status.link.name, Some(e.status.link.device)), e.status.link);
      EntryMeans(deviceLinks, linkDump, m);
      OneLinkPerName(config, deviceLinks, es, m, config.interfaces[name]);
    }
  }

  lemma WithoutLinkIff(config: Config, deviceLinks: map<string, string>, linkInterfaces: map<string, string>,
                       linkDump: seq<Message>, groups: map<nat, seq<IpAddress>>, owner: map<nat, string>,
                       name: string, e: Entry<InterfaceStatus>)
    requires ValidConfig(config) && IsInverse(config.interfaces, linkInterfaces) && name in config.interfaces
    requires config.interfaces[name] !in ByLinkName(LinkEntries(deviceLinks, linkDump))
    ensures e == ConfiguredEntry(config, ByLinkName(LinkEntries(deviceLinks, linkDump)), groups, owner, name,
                                 AbsentState(config, linkInterfaces, name))
       <==> ShownWithoutLink(config, deviceLinks, linkDump, name, e)
  {
    NamedIff(deviceLinks, linkDump, config.interfaces[name]);
    assert AbsentState(config, linkInterfaces, name) == NotFound;
  }

  /** What shows a configured interface of a valid configuration: its link as dumped, with the
      addresses of the index, or that the link was not found or does not exist. */
  lemma ConfiguredShown(config: Config, deviceLinks: map<string, string>, linkInterfaces: map<string, string>,
                        linkDump: seq<Message>, addressDump: seq<Message>, owner: map<nat, string>, name: string,
                        e: Entry<InterfaceStatus>)
    requires ValidConfig(config) && IsInverse(config.links, deviceLinks) && DistinctReports(deviceLinks, linkDump)
    requires IsInverse(config.interfaces, linkInterfaces) && name in config.interfaces
    requires Owners(config, ByLinkName(LinkEntries(deviceLinks, linkDump)), AddressGroups(addressDump), owner)
    ensures e == ConfiguredEntry(config, ByLinkName(LinkEntries(deviceLinks, linkDump)), AddressGroups(addressDump),
                                 owner, name, AbsentState(config, linkInterfaces, name))
       <==> ShownOnLink(config, deviceLinks, linkDump, addressDump, name, e)
            || ShownWithoutLink(config, deviceLinks, linkDump, name, e)
  {
    var n := config.interfaces[name];
    NamedIff(deviceLinks, linkDump, n);
    if n in ByLinkName(LinkEntries(deviceLinks, linkDump)) {
      OnLinkIff(config, deviceLinks, linkDump, addressDump, owner, name, AbsentState(config, linkInterfaces, name), e);
      LinkEntriesNamed(deviceLinks, linkDump);
      NamedLinkIsDumped(deviceLinks, LinkEntries(deviceLinks, linkDump), n);
      assert n in config.links;
    } else {
      WithoutLinkIff(config, deviceLinks, linkInterfaces, linkDump, AddressGroups(addressDump), owner, name, e);
      assert ShownOnLink(config, deviceLinks, linkDump, addressDump, name, e) ==> NamedIn(deviceLinks, linkDump, n);
    }
  }

  /** Nothing is configured on the link of an index whose addresses nobody took. */
  lemma UnownedIsUnnamed(config: Config, deviceLinks: map<string, string>, es: seq<Entry<LinkStatus>>,
                         groups: map<nat, seq<IpAddress>>, owner: map<nat, string>, i: nat, name: string)
    requires IsInverse(config.links, deviceLinks) && NamedByConfig(deviceLinks, es) && ValidDump(es)
    requires Owners(config, ByLinkName(es), groups, owner) && i in groups && i !in owner
    requires i in ByDeviceIndex(es) && name in config.interfaces
    ensures ByDeviceIndex(es)[i].status.name != Some(config.interfaces[name])
  {
    FoldsHoldEntries(es);
    var d := ByDeviceIndex(es)[i];
    if d.status.name == Some(config.interfaces[name]) {
      OneLinkPerName(config, deviceLinks, es, d, config.interfaces[name]);
    }
  }

  lemma LeftoverShown(config: Config, deviceLinks: map<string, string>, linkDump: seq<Message>,
                      addressDump: seq<Message>, owner: map<nat, string>, i: nat, e: Entry<InterfaceStatus>)
    requires IsInverse(config.links, deviceLinks) && DistinctReports(deviceLinks, linkDump)
    requires Owners(config, ByLinkName(LinkEntries(deviceLinks, linkDump)), AddressGroups(addressDump), owner)
    requires i in AddressGroups(addressDump) && i !in owner && i in ByDeviceIndex(LinkEntries(deviceLinks, linkDump))
    requires e == LeftoverEntry(ByDeviceIndex(LinkEntries(deviceLinks, linkDump)), AddressGroups(addressDump), i)
    ensures ShownUnnamed(config, deviceLinks, linkDump, addressDump, e)
  {
    var es := LinkEntries(deviceLinks, linkDump);
    LinkEntriesNamed(deviceLinks, linkDump);
    DistinctIsValid(deviceLinks, linkDump);
    FoldsHoldEntries(es);
    var d := ByDeviceIndex(es)[i];
    EntryMeans(deviceLinks, linkDump, d);
    GroupsAreReports(addressDump, i);
    SortedReports(addressDump, i, e.status.addresses);
    HasAddressIff(addressDump, i);
    forall name | name in config.interfaces ensures d.status.name != Some(config.interfaces[name]) {
      UnownedIsUnnamed(config, deviceLinks, es, AddressGroups(addressDump), owner, i, name);
    }
  }

  lemma UnnamedIsLeftover(config: Config, deviceLinks: map<string, string>, linkDump: seq<Message>,
                          addressDump: seq<Message>, owner: map<nat, string>, e: Entry<InterfaceStatus>)
    requires IsInverse(config.links, deviceLinks) && DistinctReports(deviceLinks, linkDump)
    requires Owners(config, ByLinkName(LinkEntries(deviceLinks, linkDump)), AddressGroups(addressDump), owner)
    requires ShownUnnamed(config, deviceLinks, linkDump, addressDump, e)
    ensures var i := e.id.index.value;
            && i in AddressGroups(addressDump) && i !in owner
            && i in ByDeviceIndex(LinkEntries(deviceLinks, linkDump))
            && e == LeftoverEntry(ByDeviceIndex(LinkEntries(deviceLinks, linkDump)), AddressGroups(addressDump), i)
  {
    var es, i := LinkEntries(deviceLinks, linkDump), e.id.index.value;
    LinkEntriesNamed(deviceLinks, linkDump);
    DistinctIsValid(deviceLinks, linkDump);
    FoldsHoldEntries(es);
    var d := Entry(Id(e.id.index, e.status.link.name, Some(e.status.link.device)), e.status.link);
    EntryMeans(deviceLinks, linkDump, d);
    ValidDumpDistinct(es, d, ByDeviceIndex(es)[i]);
    GroupsAreReports(addressDump, i);
    SortedReports(addressDump, i, e.status.addresses);
    HasAddressIff(addressDump, i);
    if i in owner {
      var l := ByLinkName(es)[config.interfaces[owner[i]]];
      ValidDumpDistinct(es, d, l);
    }
  }

  /** For any configuration and dump: an interface on a configured link that no message names is shown on
      a link not found if it is the one chosen for the link, and as misconfigured otherwise. */
  lemma AbsentLinkShown(config: Config, deviceLinks: map<string, string>, linkInterfaces: map<string, string>,
                        linkDump: seq<Message>, groups: map<nat, seq<IpAddress>>, owner: map<nat, string>, name: string)
    requires IsInverse(config.interfaces, linkInterfaces)
    requires name in config.interfaces && config.interfaces[name] in config.links
    requires !NamedIn(deviceLinks, linkDump, config.interfaces[name])
    ensures var n := config.interfaces[name];
            var state := if linkInterfaces[n] == name then NotFound else Misconfigured;
            Entry(Id(None, Some(name), Some(config.links[n])),
                  InterfaceStatus(Some(name), [], LinkStatus(Some(n), config.links[n], state)))
            in InterfaceSpec(config, linkInterfaces, LinkEntries(deviceLinks, linkDump), groups, owner)
  {
    NamedIff(deviceLinks, linkDump, config.interfaces[name]);
    var named := ByLinkName(LinkEntries(deviceLinks, linkDump));
    var e := ConfiguredEntry(config, named, groups, owner, name, AbsentState(config, linkInterfaces, name));
    OriginInSpec(config, linkInterfaces, LinkEntries(deviceLinks, linkDump), groups, owner, e, Configured(name));
  }

  lemma OriginInSpec(config: Config, linkInterfaces: map<string, string>, es: seq<Entry<LinkStatus>>,
                     groups: map<nat, seq<IpAddress>>, owner: map<nat, string>, e: Entry<InterfaceStatus>, o: Source)
    requires IsOrigin(config, linkInterfaces, es, groups, owner, e, o)
    ensures e in InterfaceSpec(config, linkInterfaces, es, groups, owner)
  {
  }

  ghost predicate ShownInterface(config: Config, deviceLinks: map<string, string>, linkDump: seq<Message>,
                                 addressDump: seq<Message>, e: Entry<InterfaceStatus>)
  {
    || (exists name :: ShownOnLink(config, deviceLinks, linkDump, addressDump, name, e))
    || (exists name :: ShownWithoutLink(config, deviceLinks, linkDump, name, e))
    || ShownUnnamed(config, deviceLinks, linkDump, addressDump, e)
  }

  /** For a valid configuration and dump these are exactly the interfaces of a snapshot. */
  lemma InterfacesShown(config: Config, deviceLinks: map<string, string>, linkInterfaces: map<string, string>,
                        linkDump: seq<Message>, addressDump: seq<Message>, owner: map<nat, string>,
                        e: Entry<InterfaceStatus>)
    requires ValidConfig(config) && IsInverse(config.links, deviceLinks) && DistinctReports(deviceLinks, linkDump)
    requires IsInverse(config.interfaces, linkInterfaces)
    requires Owners(config, ByLinkName(LinkEntries(deviceLinks, linkDump)), AddressGroups(addressDump), owner)
    ensures e in InterfaceSpec(config, linkInterfaces, LinkEntries(deviceLinks, linkDump), AddressGroups(addressDump),
                               owner)
       <==> ShownInterface(config, deviceLinks, linkDump, addressDump, e)
  {
    var es, groups := LinkEntries(deviceLinks, linkDump), AddressGroups(addressDump);
    if e in InterfaceSpec(config, linkInterfaces, es, groups, owner) {
      var o := Origin(config, linkInterfaces, es, groups, owner, e);
      match o
      case Configured(name) =>
        ConfiguredShown(config, deviceLinks, linkInterfaces, linkDump, addressDump, owner, name, e);
      case Leftover(i) =>
        LeftoverShown(config, deviceLinks, linkDump, addressDump, owner, i, e);
    }
    if ShownInterface(config, deviceLinks, linkDump, addressDump, e) {
      ShownIsEntry(config, deviceLinks, linkInterfaces, linkDump, addressDump, owner, e);
    }
  }

  lemma ShownIsEntry(config: Config, deviceLinks: map<string, string>, linkInterfaces: map<string, string>,
                     linkDump: seq<Message>, addressDump: seq<Message>, owner: map<nat, string>,
                     e: Entry<InterfaceStatus>)
    requires ValidConfig(config) && IsInverse(config.links, deviceLinks) && DistinctReports(deviceLinks, linkDump)
    requires IsInverse(config.interfaces, linkInterfaces)
    requires Owners(config, ByLinkName(LinkEntries(deviceLinks, linkDump)), AddressGroups(addressDump), owner)
    requires ShownInterface(config, deviceLinks, linkDump, addressDump, e)
    ensures e in InterfaceSpec(config, linkInterfaces, LinkEntries(deviceLinks, linkDump), AddressGroups(addressDump),
                               owner)
  {
    var es, groups := LinkEntries(deviceLinks, linkDump), AddressGroups(addressDump);
    var o: Source;
    if ShownUnnamed(config, deviceLinks, linkDump, addressDump, e) {
      UnnamedIsLeftover(config, deviceLinks, linkDump, addressDump, owner, e);
      o := Leftover(e.id.index.value);
    } else if name :| ShownOnLink(config, deviceLinks, linkDump, addressDump, name, e) {
      ConfiguredShown(config, deviceLinks, linkInterfaces, linkDump, addressDump, owner, name, e);
      o := Configured(name);
    } else {
      var name :| ShownWithoutLink(config, deviceLinks, linkDump, name, e);
      ConfiguredShown(config, deviceLinks, linkInterfaces, linkDump, addressDump, owner, name, e);
      o := Configured(name);
    }
    OriginInSpec(config, linkInterfaces, es, groups, owner, e, o);
  }
}

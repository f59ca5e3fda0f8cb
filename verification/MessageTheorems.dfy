/** What each kernel message does to the tables, said of the message's own attributes. */
module MessageTheorems {
  import opened Wrappers
  import opened NetworkModel
  import opened NetlinkProcessor
  import opened Addresses
  import opened Snapshot
  import opened InterfaceEvents
  import opened InterfaceManagement

  // ----- Addresses -----

  /** Only the addresses of `v` changed, and its stamp. */
  ghost predicate AddressesChanged(t: Tables, t': Tables, v: Item<InterfaceStatus>, expected: multiset<IpAddress>,
                                   time: nat, time': nat)
  {
    exists w: Item<InterfaceStatus> ::
      && w.id == v.id && w.status.name == v.status.name && w.status.link == v.status.link
      && Sorted(w.status.addresses) && multiset(w.status.addresses) == expected
      && time <= w.refreshed <= time'
      && t' == t.(interfaces := t.interfaces - {v} + {w})
  }

  lemma AddressesPut(t: Tables, time: nat, v: Item<InterfaceStatus>, addresses: seq<IpAddress>, now: nat, time': nat)
    requires Good(t, time) && v in t.interfaces && v.id.index.Some? && Sorted(addresses) && time <= now <= time'
    ensures AddressesChanged(t, t.(interfaces := Put(t.interfaces, WithAddresses(v, addresses, now))), v,
                             multiset(addresses), time, time')
  {
    var w := WithAddresses(v, addresses, now);
    PutSameId(t.interfaces, v, w);
    assert t.(interfaces := Put(t.interfaces, w)) == t.(interfaces := t.interfaces - {v} + {w});
  }

  lemma NewAddressChanges(t: Tables, time: nat, v: Item<InterfaceStatus>, i: nat, a: IpAddress, now: nat, time': nat)
    requires Good(t, time) && v in t.interfaces && v.id.index == Some(i) && time <= now <= time'
    ensures AddressesChanged(t, AfterNewAddress(t, i, a, now), v, multiset(v.status.addresses) + multiset{a},
                             time, time')
  {
    OneHolderOfIndex(t.interfaces, v, i);
    var added := v.status.addresses + [a];
    SortSorts(added);
    AddressesPut(t, time, v, Sort(added), now, time');
    assert multiset(Sort(added)) == multiset(v.status.addresses) + multiset{a};
  }

  lemma DelAddressChanges(t: Tables, time: nat, v: Item<InterfaceStatus>, i: nat, a: IpAddress, now: nat, time': nat)
    requires Good(t, time) && v in t.interfaces && v.id.index == Some(i) && time <= now <= time'
    ensures AddressesChanged(t, AfterDelAddress(t, i, a, now), v, multiset(v.status.addresses) - multiset{a},
                             time, time')
  {
    OneHolderOfIndex(t.interfaces, v, i);
    RemoveFirstKeepsSorted(v.status.addresses, a);
    AddressesPut(t, time, v, RemoveFirst(v.status.addresses, a), now, time');
  }

  lemma NewAddressStep(config: Config, deviceLinks: map<string, string>, m: Message, i: nat, a: IpAddress,
                       t: Tables, time: nat, t': Tables, time': nat) returns (now: nat)
    requires Next(config, deviceLinks, Receive(m), t, time, t', time') && m.NewAddress? && ReportsAddress(m, i, a)
    ensures time <= now <= time' && t' == AfterNewAddress(t, i, a, now)
  {
    AddressReportIff(m, i, a);
    var t1, t2 :| time <= t1 <= t2 <= time' && t' == AfterMessage(deviceLinks, t, m, t1, t2);
    now := t1;
  }

  lemma DelAddressStep(config: Config, deviceLinks: map<string, string>, m: Message, i: nat, a: IpAddress,
                       t: Tables, time: nat, t': Tables, time': nat) returns (now: nat)
    requires Next(config, deviceLinks, Receive(m), t, time, t', time') && m.DelAddress? && ReportsAddress(m, i, a)
    ensures time <= now <= time' && t' == AfterDelAddress(t, i, a, now)
  {
    AddressReportIff(m, i, a);
    var t1, t2 :| time <= t1 <= t2 <= time' && t' == AfterMessage(deviceLinks, t, m, t1, t2);
    now := t1;
  }

  /** A new address joins the addresses of the interface on its index; without one nothing happens. */
  lemma NewAddressMessage(config: Config, deviceLinks: map<string, string>, m: Message, i: nat, a: IpAddress,
                          t: Tables, time: nat, t': Tables, time': nat)
    requires Good(t, time) && Next(config, deviceLinks, Receive(m), t, time, t', time')
    requires m.NewAddress? && ReportsAddress(m, i, a)
    ensures (forall v :: v in t.interfaces ==> v.id.index != Some(i)) ==> t' == t
    ensures forall v :: v in t.interfaces && v.id.index == Some(i) ==>
              AddressesChanged(t, t', v, multiset(v.status.addresses) + multiset{a}, time, time')
  {
    var now := NewAddressStep(config, deviceLinks, m, i, a, t, time, t', time');
    forall v | v in t.interfaces && v.id.index == Some(i)
      ensures AddressesChanged(t, t', v, multiset(v.status.addresses) + multiset{a}, time, time')
    {
      NewAddressChanges(t, time, v, i, a, now, time');
    }
  }

  /** A deleted address leaves the addresses of the interface on its index, once. */
  lemma DelAddressMessage(config: Config, deviceLinks: map<string, string>, m: Message, i: nat, a: IpAddress,
                          t: Tables, time: nat, t': Tables, time': nat)
    requires Good(t, time) && Next(config, deviceLinks, Receive(m), t, time, t', time')
    requires m.DelAddress? && ReportsAddress(m, i, a)
    ensures (forall v :: v in t.interfaces ==> v.id.index != Some(i)) ==> t' == t
    ensures forall v :: v in t.interfaces && v.id.index == Some(i) ==>
              AddressesChanged(t, t', v, multiset(v.status.addresses) - multiset{a}, time, time')
  {
    var now := DelAddressStep(config, deviceLinks, m, i, a, t, time, t', time');
    forall v | v in t.interfaces && v.id.index == Some(i)
      ensures AddressesChanged(t, t', v, multiset(v.status.addresses) - multiset{a}, time, time')
    {
      DelAddressChanges(t, time, v, i, a, now, time');
    }
  }

  // ----- Links -----

  /** The interface on index `i` whose link has device `device`. */
  ghost predicate StandsOnDevice(v: Item<InterfaceStatus>, i: nat, device: string) {
    v.id.index == Some(i) && v.status.link.device == device
  }

  /** A new item took the place of everything with a key in common. */
  ghost predicate PutIn<T(!new)>(before: set<Item<T>>, after: set<Item<T>>, id: Id, status: T, time: nat, time': nat) {
    exists w: Item<T> ::
      && w.id == id && w.status == status && time <= w.refreshed <= time'
      && after == (set x | x in before && !Shares(x.id, id)) + {w}
  }

  /** A new item took the place of `v`, and of nothing else. */
  ghost predicate InPlaceOf<T(!new)>(before: set<Item<T>>, after: set<Item<T>>, v: Item<T>, id: Id, status: T,
                                     time: nat, time': nat)
  {
    exists w: Item<T> ::
      w.id == id && w.status == status && time <= w.refreshed <= time' && after == before - {v} + {w}
  }

  lemma FoundStanding(t: Tables, time: nat, v: Item<InterfaceStatus>, i: nat, device: string)
    requires Good(t, time) && v in t.interfaces && StandsOnDevice(v, i, device)
    ensures StandingOn(t, i, device) == Some(v)
    ensures v.id == Id(Some(i), v.status.name, Some(device))
  {
    OneHolderOfIndex(t.interfaces, v, i);
  }

  lemma NewLinkStep(config: Config, deviceLinks: map<string, string>, m: Message, i: nat, s: LinkStatus,
                    t: Tables, time: nat, t': Tables, time': nat) returns (t1: nat, t2: nat)
    requires Next(config, deviceLinks, Receive(m), t, time, t', time')
    requires m.NewLink? && ReportsLink(deviceLinks, m, i, s)
    ensures time <= t1 <= t2 <= time' && t' == AfterNewLink(t, i, s, t1, t2)
  {
    LinkReportIff(deviceLinks, m, i, s);
    t1, t2 :| time <= t1 <= t2 <= time' && t' == AfterMessage(deviceLinks, t, m, t1, t2);
  }

  lemma DelLinkStep(config: Config, deviceLinks: map<string, string>, m: Message, i: nat, s: LinkStatus,
                    t: Tables, time: nat, t': Tables, time': nat) returns (t1: nat, t2: nat)
    requires Next(config, deviceLinks, Receive(m), t, time, t', time')
    requires m.DelLink? && ReportsLink(deviceLinks, m, i, s)
    ensures time <= t1 <= t2 <= time' && t' == AfterDelLink(t, i, s, t1, t2)
  {
    LinkReportIff(deviceLinks, m, i, s);
    t1, t2 :| time <= t1 <= t2 <= time' && t' == AfterMessage(deviceLinks, t, m, t1, t2);
  }

  /** A new link takes the place of every link with a key in common. The interface that stands on it
      shows its status and keeps the rest; every other interface stays as it was. */
  lemma NewLinkMessage(config: Config, deviceLinks: map<string, string>, m: Message, i: nat, s: LinkStatus,
                       t: Tables, time: nat, t': Tables, time': nat)
    requires Good(t, time) && Next(config, deviceLinks, Receive(m), t, time, t', time')
    requires m.NewLink? && ReportsLink(deviceLinks, m, i, s)
    ensures PutIn(t.links, t'.links, Id(Some(i), s.name, Some(s.device)), s, time, time')
    ensures (forall v :: v in t.interfaces ==> !StandsOnDevice(v, i, s.device)) ==> t'.interfaces == t.interfaces
    ensures forall v :: v in t.interfaces && StandsOnDevice(v, i, s.device) ==>
              InPlaceOf(t.interfaces, t'.interfaces, v, v.id,
                        InterfaceStatus(v.status.name, v.status.addresses, s), time, time')
  {
    var t1, t2 := NewLinkStep(config, deviceLinks, m, i, s, t, time, t', time');
    var l := Item(Id(Some(i), s.name, Some(s.device)), s, t1);
    assert t'.links == (set x | x in t.links && !Shares(x.id, l.id)) + {l};
    forall v | v in t.interfaces && StandsOnDevice(v, i, s.device)
      ensures InPlaceOf(t.interfaces, t'.interfaces, v, v.id,
                        InterfaceStatus(v.status.name, v.status.addresses, s), time, time')
    {
      FoundStanding(t, time, v, i, s.device);
      PutSameId(t.interfaces, v, Relinked(v, Some(i), s, t2));
    }
  }

  /** A deleted link stays as not found and without an index if it is configured, and goes otherwise. */
  lemma DelLinkMessageOnLinks(config: Config, deviceLinks: map<string, string>, m: Message, i: nat, s: LinkStatus,
                              t: Tables, time: nat, t': Tables, time': nat)
    requires Good(t, time) && Next(config, deviceLinks, Receive(m), t, time, t', time')
    requires m.DelLink? && ReportsLink(deviceLinks, m, i, s)
    ensures s.name.Some? ==>
              PutIn(t.links, t'.links, Id(None, s.name, Some(s.device)), LinkStatus(s.name, s.device, NotFound),
                    time, time')
    ensures s.name.None? ==> t'.links == set x | x in t.links && x.status.device != s.device
  {
    var t1, t2 := DelLinkStep(config, deviceLinks, m, i, s, t, time, t', time');
    var id := Id(None, s.name, Some(s.device));
    if s.name.Some? {
      var l := Item(id, LinkStatus(s.name, s.device, NotFound), t1);
      assert t'.links == (set x | x in t.links && !Shares(x.id, id)) + {l};
    }
  }

  /** The interface that stood on a deleted link loses its index and shows the link's last status if it
      is configured, and goes otherwise; every other interface stays as it was. */
  lemma DelLinkMessageOnInterfaces(config: Config, deviceLinks: map<string, string>, m: Message, i: nat, s: LinkStatus,
                                   t: Tables, time: nat, t': Tables, time': nat)
    requires Good(t, time) && Next(config, deviceLinks, Receive(m), t, time, t', time')
    requires m.DelLink? && ReportsLink(deviceLinks, m, i, s)
    ensures (forall v :: v in t.interfaces ==> !StandsOnDevice(v, i, s.device)) ==> t'.interfaces == t.interfaces
    ensures forall v :: v in t.interfaces && StandsOnDevice(v, i, s.device) && v.status.name.None? ==>
              t'.interfaces == t.interfaces - {v}
    ensures forall v :: v in t.interfaces && StandsOnDevice(v, i, s.device) && v.status.name.Some? ==>
              InPlaceOf(t.interfaces, t'.interfaces, v, Id(None, v.status.name, Some(s.device)),
                        InterfaceStatus(v.status.name, v.status.addresses,
                                        LinkStatus(s.name, s.device, if s.name.Some? then NotFound else s.state)),
                        time, time')
  {
    var t1, t2 := DelLinkStep(config, deviceLinks, m, i, s, t, time, t', time');
    assert t'.interfaces == InterfacesWithout(t, i, s, t2);
    forall v | v in t.interfaces && StandsOnDevice(v, i, s.device)
      ensures t'.interfaces == t.interfaces - {v}
                               + if v.status.name.Some? then {Relinked(v, None, GoneStatus(s), t2)} else {}
    {
      FoundStanding(t, time, v, i, s.device);
      WithoutOne(t.interfaces, v, Id(None, v.status.name, Some(s.device)));
    }
  }

  /** Nothing else shares the name or the device of a stored item. */
  lemma WithoutOne<T(!new)>(contents: set<Item<T>>, v: Item<T>, id: Id)
    requires CollisionFree(contents) && v in contents && id == v.id.(index := None) && Shares(v.id, id)
    ensures Without(contents, id) == contents - {v}
  {
    forall x | x in contents && x != v ensures !Shares(x.id, id) {
      assert !Shares(x.id, v.id);
    }
  }

  /** A message that reports nothing changes nothing. */
  lemma SilentMessage(config: Config, deviceLinks: map<string, string>, m: Message,
                      t: Tables, time: nat, t': Tables, time': nat)
    requires Next(config, deviceLinks, Receive(m), t, time, t', time')
    requires forall i, s :: !ReportsLink(deviceLinks, m, i, s)
    requires forall i, a :: !ReportsAddress(m, i, a)
    ensures t' == t
  {
    if LinkReport(deviceLinks, m).Some? {
      LinkReportIff(deviceLinks, m, LinkReport(deviceLinks, m).value.0, LinkReport(deviceLinks, m).value.1);
    }
    if AddressReport(m).Some? {
      AddressReportIff(m, AddressReport(m).value.0, AddressReport(m).value.1);
    }
  }

  // ----- What is sent -----

  /** A new link is sent with its status, and then the interface that stands on it with that link. */
  lemma NewLinkSent(deviceLinks: map<string, string>, m: Message, i: nat, s: LinkStatus, t: Tables, time: nat)
    requires Good(t, time) && m.NewLink? && ReportsLink(deviceLinks, m, i, s)
    ensures (forall v :: v in t.interfaces ==> !StandsOnDevice(v, i, s.device)) ==>
              MessageUpdates(deviceLinks, t, m) == [LinkUpdate(s)]
    ensures forall v :: v in t.interfaces && StandsOnDevice(v, i, s.device) ==>
              MessageUpdates(deviceLinks, t, m)
              == [LinkUpdate(s), InterfaceUpdate(InterfaceStatus(v.status.name, v.status.addresses, s))]
  {
    LinkReportIff(deviceLinks, m, i, s);
    forall v | v in t.interfaces && StandsOnDevice(v, i, s.device) ensures StandingOn(t, i, s.device) == Some(v) {
      FoundStanding(t, time, v, i, s.device);
    }
  }

  /** No other message is sent to anyone. */
  lemma NothingSent(deviceLinks: map<string, string>, m: Message, t: Tables)
    requires m.NewLink? ==> forall i, s :: !ReportsLink(deviceLinks, m, i, s)
    ensures MessageUpdates(deviceLinks, t, m) == []
  {
    if m.NewLink? && LinkReport(deviceLinks, m).Some? {
      LinkReportIff(deviceLinks, m, LinkReport(deviceLinks, m).value.0, LinkReport(deviceLinks, m).value.1);
    }
  }
}

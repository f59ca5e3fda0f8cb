/** Reading kernel messages into link and address reports. */
module NetlinkProcessor {
  import opened Wrappers
  import opened NetworkModel
  import opened Bytes

  const AF_INET: nat := 2
  const AF_INET6: nat := 10

  datatype LinkState = StateUp | StateDown | StateOther

  datatype LinkAttribute = IfName(name: string) | OperState(state: LinkState) | OtherLinkAttribute

  datatype AddressAttribute = Address(octets: seq<byte>) | OtherAddressAttribute

  datatype Message =
    | NewLink(index: nat, family: nat, links: seq<LinkAttribute>)
    | DelLink(index: nat, family: nat, links: seq<LinkAttribute>)
    | NewAddress(index: nat, family: nat, prefix: nat, addresses: seq<AddressAttribute>)
    | DelAddress(index: nat, family: nat, prefix: nat, addresses: seq<AddressAttribute>)
    | OtherMessage

  function ToOperationalState(s: LinkState): OperationalState {
    match s
    case StateUp => Up
    case StateDown => Down
    case StateOther => Unknown
  }

  // ----- What the messages say: the last attribute of each kind counts -----

  ghost function LastName(attributes: seq<LinkAttribute>): Option<string> {
    if attributes == [] then None
    else
      var n := |attributes| - 1;
      if attributes[n].IfName? then Some(attributes[n].name) else LastName(attributes[..n])
  }

  ghost function LastState(attributes: seq<LinkAttribute>): OperationalState {
    if attributes == [] then Unknown
    else
      var n := |attributes| - 1;
      if attributes[n].OperState? then ToOperationalState(attributes[n].state) else LastState(attributes[..n])
  }

  ghost function LinkReport(deviceLinks: map<string, string>, m: Message): Option<(nat, LinkStatus)> {
    if (m.NewLink? || m.DelLink?) && m.family == 0 && LastName(m.links).Some? then
      var device := LastName(m.links).value;
      var name := if device in deviceLinks then Some(deviceLinks[device]) else None;
      Some((m.index, LinkStatus(name, device, LastState(m.links))))
    else
      None
  }

  ghost function LastAddress(attributes: seq<AddressAttribute>, family: nat): Option<IpAddr> {
    if attributes == [] then None
    else
      var n := |attributes| - 1;
      var a := attributes[n];
      if a.Address? && family == AF_INET && |a.octets| == 4 then Some(V4(FromBE(a.octets)))
      else if a.Address? && family == AF_INET6 && |a.octets| == 16 then Some(V6(FromBE(a.octets)))
      else LastAddress(attributes[..n], family)
  }

  ghost function AddressReport(m: Message): Option<(nat, IpAddress)> {
    if (m.NewAddress? || m.DelAddress?) && LastAddress(m.addresses, m.family).Some? then
      Some((m.index, IpAddress(LastAddress(m.addresses, m.family).value, m.prefix)))
    else
      None
  }

  // ----- Reading them -----

  method ProcessLink(deviceLinks: map<string, string>, m: Message) returns (r: Option<(nat, LinkStatus)>)
    ensures r == LinkReport(deviceLinks, m)
  {
    var device: Option<string> := None;
    var state := Unknown;
    if !(m.NewLink? || m.DelLink?) {
      return None;
    }
    if m.family != 0 {
      return None;
    }
    for i := 0 to |m.links|
      invariant device == LastName(m.links[..i]) && state == LastState(m.links[..i])
    {
      assert m.links[..i + 1][..i] == m.links[..i];
      if m.links[i].IfName? {
        device := Some(m.links[i].name);
      } else if m.links[i].OperState? {
        state := ToOperationalState(m.links[i].state);
      }
    }
    assert m.links[..|m.links|] == m.links;
    if device.None? {
      return None;
    }
    var name := if device.value in deviceLinks then Some(deviceLinks[device.value]) else None;
    r := Some((m.index, LinkStatus(name, device.value, state)));
  }

  method ProcessAddress(m: Message) returns (r: Option<(nat, IpAddress)>)
    ensures r == AddressReport(m)
  {
    var address: Option<IpAddr> := None;
    if !(m.NewAddress? || m.DelAddress?) {
      return None;
    }
    for i := 0 to |m.addresses|
      invariant address == LastAddress(m.addresses[..i], m.family)
    {
      assert m.addresses[..i + 1][..i] == m.addresses[..i];
      if m.addresses[i].Address? {
        var octets := m.addresses[i].octets;
        if m.family == AF_INET && |octets| == 4 {
          address := Some(V4(FromBE(octets)));
        } else if m.family == AF_INET6 && |octets| == 16 {
          address := Some(V6(FromBE(octets)));
        }
      }
    }
    assert m.addresses[..|m.addresses|] == m.addresses;
    r := if address.None? then None else Some((m.index, IpAddress(address.value, m.prefix)));
  }

  // ----- The same, attribute by attribute -----

  /** `device` is the name in the last attribute that is a name. */
  ghost predicate NamesDevice(attributes: seq<LinkAttribute>, device: string) {
    exists k :: 0 <= k < |attributes| && attributes[k] == IfName(device)
                && forall j :: k < j < |attributes| ==> !attributes[j].IfName?
  }

  ghost predicate StateShownAs(state: LinkState, shown: OperationalState) {
    || (state == StateUp && shown == Up)
    || (state == StateDown && shown == Down)
    || (state == StateOther && shown == Unknown)
  }

  /** `shown` stands for the last attribute that is a state, or there is none and it is unknown. */
  ghost predicate ShowsState(attributes: seq<LinkAttribute>, shown: OperationalState) {
    || (shown == Unknown && forall j :: 0 <= j < |attributes| ==> !attributes[j].OperState?)
    || exists k :: 0 <= k < |attributes| && attributes[k].OperState? && StateShownAs(attributes[k].state, shown)
                   && forall j :: k < j < |attributes| ==> !attributes[j].OperState?
  }

  /** The message says that the link on `index` has status `s`. */
  ghost predicate ReportsLink(deviceLinks: map<string, string>, m: Message, index: nat, s: LinkStatus) {
    && (m.NewLink? || m.DelLink?) && m.family == 0 && m.index == index
    && NamesDevice(m.links, s.device) && ShowsState(m.links, s.state)
    && (s.device in deviceLinks ==> s.name == Some(deviceLinks[s.device]))
    && (s.device !in deviceLinks ==> s.name == None)
  }

  lemma {:induction false} LastNameIff(attributes: seq<LinkAttribute>, device: string)
    ensures LastName(attributes) == Some(device) <==> NamesDevice(attributes, device)
  {
    if attributes != [] {
      var n := |attributes| - 1;
      var before := attributes[..n];
      LastNameIff(before, device);
      if !attributes[n].IfName? {
        if k :| 0 <= k < |before| && before[k] == IfName(device)
                && forall j :: k < j < |before| ==> !before[j].IfName? {
          assert attributes[k] == IfName(device);
        }
        if k :| 0 <= k < |attributes| && attributes[k] == IfName(device)
                && forall j :: k < j < |attributes| ==> !attributes[j].IfName? {
          assert before[k] == IfName(device);
        }
      }
    }
  }

  lemma ShowsStateExtends(before: seq<LinkAttribute>, x: LinkAttribute, shown: OperationalState)
    ensures ShowsState(before + [x], shown)
       <==> if x.OperState? then StateShownAs(x.state, shown) else ShowsState(before, shown)
  {
    var attributes, n := before + [x], |before|;
    assert attributes[n] == x && forall k :: 0 <= k < n ==> attributes[k] == before[k];
    if !x.OperState? {
      if k :| 0 <= k < n && before[k].OperState? && StateShownAs(before[k].state, shown)
              && forall j :: k < j < n ==> !before[j].OperState? {
        assert attributes[k].OperState? && StateShownAs(attributes[k].state, shown);
      }
      if k :| 0 <= k <= n && attributes[k].OperState? && StateShownAs(attributes[k].state, shown)
              && forall j :: k < j <= n ==> !attributes[j].OperState? {
        assert before[k].OperState? && StateShownAs(before[k].state, shown);
      }
    }
  }

  lemma {:induction false} LastStateIff(attributes: seq<LinkAttribute>, shown: OperationalState)
    ensures LastState(attributes) == shown <==> ShowsState(attributes, shown)
  {
    if attributes != [] {
      var n := |attributes| - 1;
      assert attributes == attributes[..n] + [attributes[n]];
      LastStateIff(attributes[..n], shown);
      ShowsStateExtends(attributes[..n], attributes[n], shown);
    }
  }

  lemma LinkReportIff(deviceLinks: map<string, string>, m: Message, index: nat, s: LinkStatus)
    ensures LinkReport(deviceLinks, m) == Some((index, s)) <==> ReportsLink(deviceLinks, m, index, s)
  {
    if m.NewLink? || m.DelLink? {
      LastNameIff(m.links, s.device);
      LastStateIff(m.links, s.state);
    }
  }

  /** An attribute that can hold an address of the family. */
  ghost predicate Fits(x: AddressAttribute, family: nat) {
    x.Address? && ((family == 2 && |x.octets| == 4) || (family == 10 && |x.octets| == 16))
  }

  ghost predicate ShownAsAddress(x: AddressAttribute, family: nat, address: IpAddr) {
    Fits(x, family) && address == if family == 2 then V4(FromBE(x.octets)) else V6(FromBE(x.octets))
  }

  /** `address` is in the last attribute that fits the family. */
  ghost predicate ShowsAddress(attributes: seq<AddressAttribute>, family: nat, address: IpAddr) {
    exists k :: 0 <= k < |attributes| && ShownAsAddress(attributes[k], family, address)
                && forall j :: k < j < |attributes| ==> !Fits(attributes[j], family)
  }

  /** The message says that `a` is, or was, an address on `index`. */
  ghost predicate ReportsAddress(m: Message, index: nat, a: IpAddress) {
    && (m.NewAddress? || m.DelAddress?) && m.index == index && m.prefix == a.prefix
    && ShowsAddress(m.addresses, m.family, a.address)
  }

  lemma {:induction false} LastAddressIff(attributes: seq<AddressAttribute>, family: nat, address: IpAddr)
    ensures LastAddress(attributes, family) == Some(address) <==> ShowsAddress(attributes, family, address)
  {
    if attributes != [] {
      var n := |attributes| - 1;
      var before := attributes[..n];
      LastAddressIff(before, family, address);
      if Fits(attributes[n], family) {
        assert ShownAsAddress(attributes[n], family, address) <==> LastAddress(attributes, family) == Some(address);
      } else {
        assert forall k :: 0 <= k < n ==> attributes[k] == before[k];
      }
    }
  }

  lemma AddressReportIff(m: Message, index: nat, a: IpAddress)
    ensures AddressReport(m) == Some((index, a)) <==> ReportsAddress(m, index, a)
  {
    if m.NewAddress? || m.DelAddress? {
      LastAddressIff(m.addresses, m.family, a.address);
    }
  }

  // ----- Inverting a configured map -----

  ghost predicate IsInverse(m: map<string, string>, inverse: map<string, string>) {
    && (forall k :: k in m ==> m[k] in inverse)
    && (forall v :: v in inverse ==> inverse[v] in m && m[inverse[v]] == v)
  }

  ghost predicate Injective(m: map<string, string>) {
    forall j, k :: j in m && k in m && m[j] == m[k] ==> j == k
  }

  lemma InverseOfInjective(m: map<string, string>, inverse: map<string, string>, inverse': map<string, string>)
    requires Injective(m) && IsInverse(m, inverse) && IsInverse(m, inverse')
    ensures inverse == inverse'
  {
    assert forall v :: v in inverse ==> m[inverse[v]] == v && v in inverse';
    assert forall v :: v in inverse' ==> m[inverse'[v]] == v && v in inverse;
  }

  /** Collects value-to-key pairs in an arbitrary order, a later pair overwriting an earlier one. */
  method Invert(m: map<string, string>) returns (inverse: map<string, string>)
    ensures IsInverse(m, inverse)
  {
    inverse := map[];
    var pending := m;
    while pending != map[]
      invariant pending.Keys <= m.Keys && forall k :: k in pending ==> pending[k] == m[k]
      invariant forall k :: k in m && k !in pending ==> m[k] in inverse
      invariant forall v :: v in inverse ==> inverse[v] in m && m[inverse[v]] == v
      decreases pending.Keys
    {
      var k :| k in pending;
      inverse := inverse[pending[k] := k];
      pending := pending - {k};
    }
  }
}

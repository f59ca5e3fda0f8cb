/** The identities, statuses and configuration the interface table works on. */
module NetworkModel {
  import opened Wrappers

  // Instants are counted in nanoseconds on one monotonic clock.
  const HOLD_PERIOD: nat := 5_000_000_000

  /** A canonical id: up to three keys, each of which may be missing. */
  datatype Id = Id(index: Option<nat>, name: Option<string>, device: Option<string>)

  datatype Item<T> = Item(id: Id, status: T, refreshed: nat)

  datatype OperationalState = Up | Down | Unknown | NotFound | Misconfigured

  datatype LinkStatus = LinkStatus(name: Option<string>, device: string, state: OperationalState)

  datatype IpAddr = V4(bits: nat) | V6(bits: nat)

  datatype IpAddress = IpAddress(address: IpAddr, prefix: nat)

  datatype InterfaceStatus =
    InterfaceStatus(name: Option<string>, addresses: seq<IpAddress>, link: LinkStatus)

  /** `links` maps a link name to its device, `interfaces` an interface name to its link name. */
  datatype Config = Config(links: map<string, string>, interfaces: map<string, string>)

  datatype StatusUpdate = LinkUpdate(link: LinkStatus) | InterfaceUpdate(interface: InterfaceStatus)

  // ----- Keys -----

  /** The two ids have a present key in common. */
  predicate Shares(a: Id, b: Id) {
    || (a.name.Some? && a.name == b.name)
    || (a.device.Some? && a.device == b.device)
    || (a.index.Some? && a.index == b.index)
  }

  // ----- A table seen as the set of its items -----

  /** No two items have a key in common. */
  ghost predicate CollisionFree<T>(contents: set<Item<T>>) {
    forall v, w :: v in contents && w in contents && v != w ==> !Shares(v.id, w.id)
  }

  ghost function Without<T>(contents: set<Item<T>>, id: Id): set<Item<T>> {
    set v | v in contents && !Shares(v.id, id)
  }

  ghost function Put<T>(contents: set<Item<T>>, item: Item<T>): set<Item<T>> {
    Without(contents, item.id) + {item}
  }

  lemma PutKeepsCollisionFree<T>(contents: set<Item<T>>, item: Item<T>)
    requires CollisionFree(contents)
    ensures CollisionFree(Put(contents, item))
    ensures CollisionFree(Without(contents, item.id))
  {
  }

  /** The linear scan for an item with a given device index. */
  ghost function FindByIndex<T>(contents: set<Item<T>>, index: nat): (r: Option<Item<T>>)
    ensures r.Some? ==> r.value in contents && r.value.id.index == Some(index)
    ensures r.None? ==> forall v :: v in contents ==> v.id.index != Some(index)
  {
    if exists v :: v in contents && v.id.index == Some(index) then
      var v :| v in contents && v.id.index == Some(index);
      Some(v)
    else
      None
  }
}

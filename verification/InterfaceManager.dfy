/** The interface manager: the poll and the kernel listener over the two tables, and the delivery of
    their updates to subscribers. */
module InterfaceManagement {
  import opened Wrappers
  import opened NetworkModel
  import opened NetlinkProcessor
  import opened Addresses
  import opened InterfaceDatabase
  import opened Reconciliation
  import opened Snapshot
  import opened InterfaceEvents

  /** The sending half of a bounded channel. Whether a send succeeds depends on the capacity, on the
      receiver draining it meanwhile and on the receiver being alive, so it is left open. */
  class Subscriber {
    var sent: seq<StatusUpdate>

    constructor ()
      ensures sent == []
    {
      sent := [];
    }

    method TrySend(m: StatusUpdate) returns (ok: bool)
      modifies this
      ensures sent == if ok then old(sent) + [m] else old(sent)
    {
      ok := *;
      if ok {
        sent := sent + [m];
      }
    }
  }

  /** Only a strict prefix of the batch was sent. */
  ghost predicate CutShort(before: seq<StatusUpdate>, now: seq<StatusUpdate>, batch: seq<StatusUpdate>) {
    exists k :: 0 <= k < |batch| && now == before + batch[..k]
  }

  /** Who is in `now` took the whole batch, and who is only in `before` a strict prefix of it. */
  twostate predicate Published(before: seq<Subscriber>, new now: seq<Subscriber>, batch: seq<StatusUpdate>)
    reads set s | s in before
  {
    && (forall s :: s in now ==> s in before && s.sent == old(s.sent) + batch)
    && (forall s :: s in before && s !in now ==> CutShort(old(s.sent), s.sent, batch))
  }

  /** Sends a batch in order, giving up at the first send that fails. */
  method Deliver(s: Subscriber, batch: seq<StatusUpdate>) returns (retain: bool)
    modifies s
    ensures retain ==> s.sent == old(s.sent) + batch
    ensures !retain ==> CutShort(old(s.sent), s.sent, batch)
  {
    for i := 0 to |batch|
      invariant s.sent == old(s.sent) + batch[..i]
    {
      var ok := s.TrySend(batch[i]);
      if !ok {
        return false;
      }
      assert batch[..i + 1] == batch[..i] + [batch[i]];
    }
    assert batch[..|batch|] == batch;
    retain := true;
  }

  ghost predicate Distinct<T>(s: seq<T>) {
    forall i, j :: 0 <= i < j < |s| ==> s[i] != s[j]
  }

  /** The elements of `s` that are in `keep`, in their order. */
  ghost function Among<T>(s: seq<T>, keep: set<T>): seq<T> {
    if s == [] then []
    else
      var before := Among(s[..|s| - 1], keep);
      if s[|s| - 1] in keep then before + [s[|s| - 1]] else before
  }

  lemma {:induction false} AmongElements<T>(s: seq<T>, keep: set<T>)
    ensures forall t :: t in Among(s, keep) <==> t in s && t in keep
    ensures Distinct(s) ==> Distinct(Among(s, keep))
  {
    if s != [] {
      AmongElements(s[..|s| - 1], keep);
      assert s == s[..|s| - 1] + [s[|s| - 1]];
    }
  }

  lemma {:induction false} AmongOthers<T>(s: seq<T>, keep: set<T>, t: T)
    requires t !in s
    ensures Among(s, keep + {t}) == Among(s, keep)
  {
    if s != [] {
      AmongOthers(s[..|s| - 1], keep, t);
    }
  }

  lemma OneMoreAmong<T>(s: seq<T>, i: nat, keep: set<T>)
    requires i < |s| && Distinct(s) && s[i] !in keep
    ensures Among(s[..i + 1], keep + {s[i]}) == Among(s[..i], keep) + [s[i]]
    ensures Among(s[..i + 1], keep) == Among(s[..i], keep)
  {
    assert s[..i + 1][..i] == s[..i];
    AmongOthers(s[..i], keep, s[i]);
  }

  /** Keeps the subscribers that took the whole batch, in their order. */
  method RetainSubscribers(subscribers: seq<Subscriber>, batch: seq<StatusUpdate>) returns (retained: seq<Subscriber>)
    requires Distinct(subscribers)
    modifies set s | s in subscribers
    ensures Distinct(retained) && retained == Among(subscribers, set s | s in retained)
    ensures Published(subscribers, retained, batch)
  {
    retained := [];
    ghost var keep: set<Subscriber> := {};
    for i := 0 to |subscribers|
      invariant retained == Among(subscribers[..i], keep)
      invariant forall j :: 0 <= j < i ==> if subscribers[j] in keep
                  then subscribers[j].sent == old(subscribers[j].sent) + batch
                  else CutShort(old(subscribers[j].sent), subscribers[j].sent, batch)
      invariant forall j :: i <= j < |subscribers| ==>
                  subscribers[j] !in keep && subscribers[j].sent == old(subscribers[j].sent)
      invariant forall s :: s in keep ==> s in subscribers
    {
      var retain := Deliver(subscribers[i], batch);
      OneMoreAmong(subscribers, i, keep);
      if retain {
        retained, keep := retained + [subscribers[i]], keep + {subscribers[i]};
      }
    }
    assert subscribers[..|subscribers|] == subscribers;
    AmongElements(subscribers, keep);
    assert keep == set s | s in retained;
  }

  // ----- What is announced -----

  ghost function NewLinkUpdates(t: Tables, index: nat, s: LinkStatus): seq<StatusUpdate> {
    var v := StandingOn(t, index, s.device);
    [LinkUpdate(s)]
    + if v.None? then [] else [InterfaceUpdate(InterfaceStatus(v.value.status.name, v.value.status.addresses, s))]
  }

  /** Of the kernel's events only a new link is announced. */
  ghost function MessageUpdates(deviceLinks: map<string, string>, t: Tables, m: Message): seq<StatusUpdate> {
    var r := LinkReport(deviceLinks, m);
    if m.NewLink? && r.Some? then NewLinkUpdates(t, r.value.0, r.value.1) else []
  }

  function LinkUpdates(items: seq<Item<LinkStatus>>): seq<StatusUpdate> {
    seq(|items|, i requires 0 <= i < |items| => LinkUpdate(items[i].status))
  }

  function InterfaceUpdates(items: seq<Item<InterfaceStatus>>): seq<StatusUpdate> {
    seq(|items|, i requires 0 <= i < |items| => InterfaceUpdate(items[i].status))
  }

  /** A deleted interface is shown on a link that was not found. */
  function DeletedInterfaceUpdates(items: seq<Item<InterfaceStatus>>): seq<StatusUpdate> {
    seq(|items|, i requires 0 <= i < |items| =>
      InterfaceUpdate(items[i].status.(link := items[i].status.link.(state := NotFound))))
  }

  /** The batch of a poll: deleted links, links, deleted interfaces, interfaces. */
  function Batch(b: PollReport): seq<StatusUpdate> {
    LinkUpdates(b.deletedLinks) + LinkUpdates(b.links)
    + DeletedInterfaceUpdates(b.deletedInterfaces) + InterfaceUpdates(b.interfaces)
  }

  /** `batch` tells of the deleted links, the links, the deleted interfaces, on a link that is not found,
      and the interfaces, in this order and one update each. */
  ghost predicate LaidOut(b: PollReport, batch: seq<StatusUpdate>) {
    var i, j := |b.deletedLinks|, |b.deletedLinks| + |b.links|;
    var k := j + |b.deletedInterfaces|;
    && |batch| == k + |b.interfaces|
    && (forall n :: 0 <= n < |b.deletedLinks| ==> batch[n] == LinkUpdate(b.deletedLinks[n].status))
    && (forall n :: 0 <= n < |b.links| ==> batch[i + n] == LinkUpdate(b.links[n].status))
    && (forall n :: 0 <= n < |b.deletedInterfaces| ==>
          var s := b.deletedInterfaces[n].status;
          batch[j + n] == InterfaceUpdate(InterfaceStatus(s.name, s.addresses,
                                                          LinkStatus(s.link.name, s.link.device, NotFound))))
    && (forall n :: 0 <= n < |b.interfaces| ==> batch[k + n] == InterfaceUpdate(b.interfaces[n].status))
  }

  lemma FourStretches<T>(w: seq<T>, x: seq<T>, y: seq<T>, z: seq<T>)
    ensures var s := w + x + y + z;
            && (forall n :: 0 <= n < |w| ==> s[n] == w[n])
            && (forall n :: 0 <= n < |x| ==> s[|w| + n] == x[n])
            && (forall n :: 0 <= n < |y| ==> s[|w| + |x| + n] == y[n])
            && (forall n :: 0 <= n < |z| ==> s[|w| + |x| + |y| + n] == z[n])
  {
  }

  lemma BatchLaidOut(b: PollReport)
    ensures LaidOut(b, Batch(b))
  {
    FourStretches(LinkUpdates(b.deletedLinks), LinkUpdates(b.links),
                  DeletedInterfaceUpdates(b.deletedInterfaces), InterfaceUpdates(b.interfaces));
  }

  /** The retained subscribers were told of a whole report in order, the others of a strict prefix. */
  twostate predicate Told(before: seq<Subscriber>, new now: seq<Subscriber>, b: PollReport)
    reads set s | s in before
  {
    exists batch :: LaidOut(b, batch) && Published(before, now, batch)
  }

  /** A poll's snapshot, before the tables are locked. */
  datatype Taken = Taken(links: map<Id, Item<LinkStatus>>, interfaces: map<Id, Item<InterfaceStatus>>)

  class InterfaceManager {
    const config: Config
    const deviceLinks: map<string, string>
    const links: StatusTable<LinkStatus>
    const interfaces: StatusTable<InterfaceStatus>
    const clock: Clock
    var subscribers: seq<Subscriber>

    /** The index agreement of both tables. */
    ghost predicate Valid()
      reads this, links, interfaces
    {
      && links.Valid() && interfaces.Valid() && links as object != interfaces as object
      && IsInverse(config.links, deviceLinks) && Distinct(subscribers)
    }

    ghost function Contents(): Tables
      reads links, interfaces
    {
      Tables(links.Contents(), interfaces.Contents())
    }

    constructor (config: Config)
      ensures Valid() && Contents() == Tables({}, {}) && this.config == config
      ensures fresh(links) && fresh(interfaces) && fresh(clock) && subscribers == []
    {
      var inverse := Invert(config.links);
      this.config, deviceLinks, subscribers := config, inverse, [];
      links := new StatusTable();
      interfaces := new StatusTable();
      clock := new Clock();
    }

    method Subscribe(s: Subscriber)
      requires Valid() && s !in subscribers
      modifies this`subscribers
      ensures Valid() && subscribers == old(subscribers) + [s]
    {
      subscribers := subscribers + [s];
    }

    method SetLink(id: Id, status: LinkStatus)
      requires Valid()
      modifies links, clock
      ensures Valid() && old(clock.time) <= clock.time
      ensures Contents() == old(Contents()).(links := Put(old(Contents()).links, Item(id, status, clock.time)))
    {
      var now := clock.Now();
      var _ := links.SetItem(Item(id, status, now));
    }

    method SetInterface(id: Id, status: InterfaceStatus)
      requires Valid()
      modifies interfaces, clock
      ensures Valid() && old(clock.time) <= clock.time
      ensures Contents()
           == old(Contents()).(interfaces := Put(old(Contents()).interfaces, Item(id, status, clock.time)))
    {
      var now := clock.Now();
      var _ := interfaces.SetItem(Item(id, status, now));
    }

    method FindStanding(index: nat, device: string) returns (r: Option<Item<InterfaceStatus>>)
      requires Valid()
      ensures r == StandingOn(Contents(), index, device)
    {
      r := interfaces.GetByIndex(index);
      if r.Some? && r.value.status.link.device != device {
        r := None;
      }
    }

    method NewLinkReceived(index: nat, s: LinkStatus) returns (updates: seq<StatusUpdate>, ghost t1: nat, ghost t2: nat)
      requires Valid()
      modifies links, interfaces, clock
      ensures Valid() && old(clock.time) <= t1 <= t2 <= clock.time
      ensures Contents() == AfterNewLink(old(Contents()), index, s, t1, t2)
      ensures updates == NewLinkUpdates(old(Contents()), index, s)
    {
      SetLink(Id(Some(index), s.name, Some(s.device)), s);
      t1, t2 := clock.time, clock.time;
      updates := [LinkUpdate(s)];
      var found := FindStanding(index, s.device);
      if found.Some? {
        var v := found.value.status;
        SetInterface(Id(Some(index), v.name, Some(v.link.device)), InterfaceStatus(v.name, v.addresses, s));
        t2 := clock.time;
        updates := updates + [InterfaceUpdate(InterfaceStatus(v.name, v.addresses, s))];
      }
    }

    method LinkGone(s: LinkStatus) returns (ghost t1: nat)
      requires Valid()
      modifies links, clock
      ensures Valid() && old(clock.time) <= t1 == clock.time
      ensures Contents() == old(Contents()).(links := LinksWithout(old(Contents()).links, s, t1))
    {
      var id := Id(None, s.name, Some(s.device));
      if s.name.Some? {
        SetLink(id, LinkStatus(s.name, s.device, NotFound));
      } else {
        var _ := links.RemoveItem(id);
      }
      t1 := clock.time;
    }

    method InterfaceGone(index: nat, s: LinkStatus) returns (ghost t2: nat)
      requires Valid()
      modifies interfaces, clock
      ensures Valid() && old(clock.time) <= t2 == clock.time
      ensures Contents() == old(Contents()).(interfaces := InterfacesWithout(old(Contents()), index, s, t2))
    {
      var gone := if s.name.Some? then LinkStatus(s.name, s.device, NotFound) else s;
      var found := FindStanding(index, s.device);
      if found.Some? {
        var v := found.value.status;
        var id := Id(None, v.name, Some(v.link.device));
        if v.name.Some? {
          SetInterface(id, InterfaceStatus(v.name, v.addresses, gone));
        } else {
          var _ := interfaces.RemoveItem(id);
        }
      }
      t2 := clock.time;
    }

    method DelLinkReceived(index: nat, s: LinkStatus) returns (ghost t1: nat, ghost t2: nat)
      requires Valid()
      modifies links, interfaces, clock
      ensures Valid() && old(clock.time) <= t1 <= t2 <= clock.time
      ensures Contents() == AfterDelLink(old(Contents()), index, s, t1, t2)
    {
      t1 := LinkGone(s);
      t2 := InterfaceGone(index, s);
    }

    method NewAddressReceived(index: nat, a: IpAddress) returns (ghost t1: nat)
      requires Valid()
      modifies interfaces, clock
      ensures Valid() && old(clock.time) <= t1 <= clock.time
      ensures Contents() == AfterNewAddress(old(Contents()), index, a, t1)
    {
      t1 := clock.time;
      var found := interfaces.GetByIndex(index);
      if found.Some? {
        var v := found.value;
        var addresses := Sort(v.status.addresses + [a]);
        SetInterface(v.id, InterfaceStatus(v.status.name, addresses, v.status.link));
        t1 := clock.time;
      }
    }

    method DelAddressReceived(index: nat, a: IpAddress) returns (ghost t1: nat)
      requires Valid()
      modifies interfaces, clock
      ensures Valid() && old(clock.time) <= t1 <= clock.time
      ensures Contents() == AfterDelAddress(old(Contents()), index, a, t1)
    {
      t1 := clock.time;
      var found := interfaces.GetByIndex(index);
      if found.Some? {
        var v := found.value;
        var addresses := RemoveFirst(v.status.addresses, a);
        SetInterface(v.id, InterfaceStatus(v.status.name, addresses, v.status.link));
        t1 := clock.time;
      }
    }

    method ApplyMessage(m: Message) returns (updates: seq<StatusUpdate>, ghost t1: nat, ghost t2: nat)
      requires Valid()
      modifies links, interfaces, clock
      ensures Valid() && old(clock.time) <= t1 <= t2 <= clock.time
      ensures Contents() == AfterMessage(deviceLinks, old(Contents()), m, t1, t2)
      ensures updates == MessageUpdates(deviceLinks, old(Contents()), m)
    {
      updates := [];
      t1, t2 := clock.time, clock.time;
      match m {
        case NewLink(_, _, _) =>
          var report := ProcessLink(deviceLinks, m);
          if report.Some? {
            updates, t1, t2 := NewLinkReceived(report.value.0, report.value.1);
          }
        case DelLink(_, _, _) =>
          var report := ProcessLink(deviceLinks, m);
          if report.Some? {
            t1, t2 := DelLinkReceived(report.value.0, report.value.1);
          }
        case NewAddress(_, _, _, _) =>
          var report := ProcessAddress(m);
          if report.Some? {
            t1 := NewAddressReceived(report.value.0, report.value.1);
            t2 := t1;
          }
        case DelAddress(_, _, _, _) =>
          var report := ProcessAddress(m);
          if report.Some? {
            t1 := DelAddressReceived(report.value.0, report.value.1);
            t2 := t1;
          }
        case OtherMessage =>
      }
    }

    method Publish(batch: seq<StatusUpdate>)
      requires Valid()
      modifies this`subscribers, set s | s in subscribers
      ensures Valid() && Contents() == old(Contents())
      ensures subscribers == Among(old(subscribers), set s | s in subscribers)
      ensures Published(old(subscribers), subscribers, batch)
    {
      subscribers := RetainSubscribers(subscribers, batch);
    }

    /** The listener's step. */
    method MessageReceived(m: Message)
      requires Valid()
      modifies this`subscribers, links, interfaces, clock, set s | s in subscribers
      ensures Valid()
      ensures Next(config, deviceLinks, Receive(m), old(Contents()), old(clock.time), Contents(), clock.time)
      ensures Published(old(subscribers), subscribers, MessageUpdates(deviceLinks, old(Contents()), m))
    {
      var updates;
      ghost var t1, t2;
      updates, t1, t2 := ApplyMessage(m);
      Publish(updates);
    }

    /** The first half of a poll, before the tables are locked. */
    method TakeSnapshot(linkDump: seq<Message>, addressDump: seq<Message>)
      returns (taken: Taken, ghost built: PollRecord)
      requires Valid()
      modifies clock
      ensures Valid() && Contents() == old(Contents()) && old(clock.time) <= clock.time
      ensures taken == Taken(built.links, built.interfaces)
      ensures SnapshotBuilt(config, deviceLinks, linkDump, addressDump, old(clock.time), clock.time, built)
    {
      var linkSnapshot, interfaceSnapshot;
      ghost var linkInterfaces, owner;
      linkSnapshot, interfaceSnapshot, linkInterfaces, owner :=
        BuildSnapshot(clock, config, deviceLinks, linkDump, addressDump);
      built := PollRecord(linkSnapshot, interfaceSnapshot, linkInterfaces, owner, [], []);
      taken := Taken(linkSnapshot, interfaceSnapshot);
    }

    method ReconcileTables(taken: Taken, ghost linkDump: seq<Message>, ghost addressDump: seq<Message>,
                           ghost from: nat, ghost to: nat, ghost built: PollRecord)
      returns (b: PollReport, ghost r: PollRecord)
      requires Valid() && taken == Taken(built.links, built.interfaces)
      requires SnapshotBuilt(config, deviceLinks, linkDump, addressDump, from, to, built)
      modifies links, interfaces
      ensures Valid()
      ensures Polled(config, deviceLinks, linkDump, addressDump, from, to, old(Contents()), Contents(), r)
      ensures Reports(old(Contents()), r.linkOrder, r.interfaceOrder, b)
    {
      var nl, dl, ni, di;
      ghost var linkOrder, interfaceOrder, before := [], [], Contents();
      nl, dl, linkOrder := Reconcile(links, taken.links);
      ni, di, interfaceOrder := Reconcile(interfaces, taken.interfaces);
      b := PollReport(dl, nl, di, ni);
      r := built.(linkOrder := linkOrder, interfaceOrder := interfaceOrder);
      PolledInTwo(config, deviceLinks, linkDump, addressDump, from, to, before, Contents(),
                  built, linkOrder, interfaceOrder);
    }

    /** The second half of a poll: both reconciliations under the tables' lock, then the batch. */
    method ApplySnapshot(taken: Taken, ghost linkDump: seq<Message>, ghost addressDump: seq<Message>,
                         ghost from: nat, ghost to: nat, ghost built: PollRecord)
      returns (b: PollReport, ghost r: PollRecord)
      requires Valid() && taken == Taken(built.links, built.interfaces)
      requires SnapshotBuilt(config, deviceLinks, linkDump, addressDump, from, to, built)
      modifies this`subscribers, links, interfaces, set s | s in subscribers
      ensures Valid()
      ensures Polled(config, deviceLinks, linkDump, addressDump, from, to, old(Contents()), Contents(), r)
      ensures Reports(old(Contents()), r.linkOrder, r.interfaceOrder, b)
      ensures Published(old(subscribers), subscribers, Batch(b))
    {
      b, r := ReconcileTables(taken, linkDump, addressDump, from, to, built);
      Publish(Batch(b));
    }

    method PollDumps(linkDump: seq<Message>, addressDump: seq<Message>)
      returns (b: PollReport, ghost r: PollRecord)
      requires Valid()
      modifies this`subscribers, links, interfaces, clock, set s | s in subscribers
      ensures Valid() && old(clock.time) <= clock.time
      ensures Polled(config, deviceLinks, linkDump, addressDump, old(clock.time), clock.time,
                     old(Contents()), Contents(), r)
      ensures Reports(old(Contents()), r.linkOrder, r.interfaceOrder, b)
      ensures Published(old(subscribers), subscribers, Batch(b))
    {
      var taken;
      ghost var from := clock.time;
      taken, r := TakeSnapshot(linkDump, addressDump);
      b, r := ApplySnapshot(taken, linkDump, addressDump, from, clock.time, r);
    }

    /** One poll. The two replies of the kernel may be errors, and then nothing is touched. */
    method TryPoll(linkReply: Result<seq<Message>, string>, addressReply: Result<seq<Message>, string>)
      returns (report: Result<PollReport, string>, ghost r: PollRecord)
      requires Valid()
      modifies this`subscribers, links, interfaces, clock, set s | s in subscribers
      ensures Valid() && old(clock.time) <= clock.time
      ensures report.Success? <==> linkReply.Success? && addressReply.Success?
      ensures report.Failure? ==>
                && Contents() == old(Contents()) && subscribers == old(subscribers)
                && forall s :: s in subscribers ==> s.sent == old(s.sent)
      ensures report.Success? ==>
                && Polled(config, deviceLinks, linkReply.value, addressReply.value, old(clock.time), clock.time,
                          old(Contents()), Contents(), r)
                && Reports(old(Contents()), r.linkOrder, r.interfaceOrder, report.value)
                && Told(old(subscribers), subscribers, report.value)
    {
      r := PollRecord(map[], map[], map[], map[], [], []);
      if linkReply.Failure? {
        return Failure(linkReply.error), r;
      }
      if addressReply.Failure? {
        return Failure(addressReply.error), r;
      }
      var b;
      b, r := PollDumps(linkReply.value, addressReply.value);
      BatchLaidOut(b);
      report := Success(b);
    }
  }

  // ----- Whole executions -----

  /** What happens to the manager. A poll starts with the kernel's two replies and ends when it gets the
      tables' lock; events and subscriptions may come in between. */
  datatype Action =
    | Event(message: Message)
    | Subscription(subscriber: Subscriber)
    | PollStarts(linkReply: Result<seq<Message>, string>, addressReply: Result<seq<Message>, string>)
    | PollEnds

  datatype Dumps = Dumps(links: seq<Message>, addresses: seq<Message>)

  /** The dumps a poll is working on after an action. */
  ghost function WaitingAfter(waiting: Option<Dumps>, a: Action): Option<Dumps> {
    match a
    case Event(_) => waiting
    case Subscription(_) => waiting
    case PollStarts(links, addresses) =>
      if links.Success? && addresses.Success? then Some(Dumps(links.value, addresses.value)) else None
    case PollEnds => None
  }

  ghost function Waiting(actions: seq<Action>): Option<Dumps> {
    if actions == [] then None
    else WaitingAfter(Waiting(actions[..|actions| - 1]), actions[|actions| - 1])
  }

  ghost function StepOf(waiting: Option<Dumps>, a: Action): Step {
    match a
    case Event(m) => Receive(m)
    case Subscription(_) => Idle
    case PollStarts(_, _) => Idle
    case PollEnds => if waiting.Some? then Poll(waiting.value.links, waiting.value.addresses) else Idle
  }

  ghost function StepsOf(actions: seq<Action>): seq<Step> {
    seq(|actions|, i requires 0 <= i < |actions| => StepOf(Waiting(actions[..i]), actions[i]))
  }

  /** Between the start of a poll at `j` and its end at `i` no other poll starts or ends. */
  ghost predicate SamePoll(actions: seq<Action>, j: nat, i: nat) {
    j < i < |actions| && actions[j].PollStarts? && actions[i].PollEnds?
    && forall k :: j < k < i ==> !actions[k].PollStarts? && !actions[k].PollEnds?
  }

  lemma {:induction false} StillWaiting(actions: seq<Action>, j: nat, i: nat)
    requires j < i <= |actions| && actions[j].PollStarts?
    requires forall k :: j < k < i ==> !actions[k].PollStarts? && !actions[k].PollEnds?
    ensures Waiting(actions[..i]) == WaitingAfter(None, actions[j])
  {
    assert actions[..i][..i - 1] == actions[..i - 1];
    if j < i - 1 {
      StillWaiting(actions, j, i - 1);
    }
  }

  /** Each event is a step on its message, and the end of a poll whose replies both came is a poll of
      the dumps that it started with. */
  lemma StepsMean(actions: seq<Action>, i: nat)
    requires i < |actions|
    ensures actions[i].Event? ==> StepsOf(actions)[i] == Receive(actions[i].message)
    ensures forall j: nat ::
              SamePoll(actions, j, i) && actions[j].linkReply.Success? && actions[j].addressReply.Success? ==>
              StepsOf(actions)[i] == Poll(actions[j].linkReply.value, actions[j].addressReply.value)
  {
    forall j: nat | SamePoll(actions, j, i) ensures Waiting(actions[..i]) == WaitingAfter(None, actions[j]) {
      StillWaiting(actions, j, i);
    }
  }

  /** The worker holds a snapshot of exactly the dumps that wait, stamped no later than now. */
  ghost predicate Holds(config: Config, deviceLinks: map<string, string>, taken: Option<Taken>,
                        waiting: Option<Dumps>, from: nat, to: nat, r: PollRecord, now: nat)
  {
    && (taken.Some? <==> waiting.Some?)
    && (taken.Some? ==>
          && taken.value == Taken(r.links, r.interfaces) && from <= to <= now
          && SnapshotBuilt(config, deviceLinks, waiting.value.links, waiting.value.addresses, from, to, r))
  }

  method StartPoll(manager: InterfaceManager, linkReply: Result<seq<Message>, string>,
                   addressReply: Result<seq<Message>, string>)
    returns (taken: Option<Taken>, ghost from: nat, ghost to: nat, ghost r: PollRecord)
    requires manager.Valid()
    modifies manager.clock
    ensures manager.Valid() && manager.Contents() == old(manager.Contents())
    ensures old(manager.clock.time) <= manager.clock.time
    ensures Holds(manager.config, manager.deviceLinks, taken, WaitingAfter(None, PollStarts(linkReply, addressReply)),
                  from, to, r, manager.clock.time)
  {
    taken, from, to, r := None, manager.clock.time, manager.clock.time, PollRecord(map[], map[], map[], map[], [], []);
    if linkReply.Success? && addressReply.Success? {
      var snapshot;
      snapshot, r := manager.TakeSnapshot(linkReply.value, addressReply.value);
      taken, to := Some(snapshot), manager.clock.time;
    }
  }

  method EndPoll(manager: InterfaceManager, taken: Option<Taken>, ghost waiting: Option<Dumps>,
                 ghost from: nat, ghost to: nat, ghost r: PollRecord)
    requires manager.Valid()
    requires Holds(manager.config, manager.deviceLinks, taken, waiting, from, to, r, manager.clock.time)
    modifies manager`subscribers, manager.links, manager.interfaces, set s | s in manager.subscribers
    ensures manager.Valid() && forall s :: s in manager.subscribers ==> s in old(manager.subscribers)
    ensures Next(manager.config, manager.deviceLinks, StepOf(waiting, PollEnds), old(manager.Contents()),
                 manager.clock.time, manager.Contents(), manager.clock.time)
  {
    if taken.Some? {
      var b;
      ghost var r';
      b, r' := manager.ApplySnapshot(taken.value, waiting.value.links, waiting.value.addresses, from, to, r);
    }
  }

  method Act(manager: InterfaceManager, a: Action, taken: Option<Taken>, ghost waiting: Option<Dumps>,
             ghost from: nat, ghost to: nat, ghost r: PollRecord)
    returns (taken': Option<Taken>, ghost from': nat, ghost to': nat, ghost r': PollRecord)
    requires manager.Valid() && (a.Subscription? ==> a.subscriber !in manager.subscribers)
    requires Holds(manager.config, manager.deviceLinks, taken, waiting, from, to, r, manager.clock.time)
    modifies manager`subscribers, manager.links, manager.interfaces, manager.clock, set s | s in manager.subscribers
    ensures manager.Valid()
    ensures forall s :: s in manager.subscribers ==>
              s in old(manager.subscribers) || (a.Subscription? && s == a.subscriber)
    ensures Holds(manager.config, manager.deviceLinks, taken', WaitingAfter(waiting, a), from', to', r',
                  manager.clock.time)
    ensures Next(manager.config, manager.deviceLinks, StepOf(waiting, a), old(manager.Contents()),
                 old(manager.clock.time), manager.Contents(), manager.clock.time)
  {
    taken', from', to', r' := taken, from, to, r;
    match a {
      case Event(m) =>
        manager.MessageReceived(m);
      case Subscription(s) =>
        manager.Subscribe(s);
      case PollStarts(links, addresses) =>
        taken', from', to', r' := StartPoll(manager, links, addresses);
      case PollEnds =>
        EndPoll(manager, taken, waiting, from, to, r);
        taken' := None;
    }
  }

  /** Who subscribes is new to the manager, and subscribes once. */
  ghost predicate NewSubscribers(subscribers: seq<Subscriber>, actions: seq<Action>) {
    && (forall i :: 0 <= i < |actions| && actions[i].Subscription? ==> actions[i].subscriber !in subscribers)
    && (forall i, j :: 0 <= i < j < |actions| && actions[i].Subscription? && actions[j].Subscription? ==>
          actions[i].subscriber != actions[j].subscriber)
  }

  /** Any interleaving of events, subscriptions and the two halves of polls, from a new manager on: both
      tables keep their index agreement, the states passed through are a run, and every one is good. */
  method Execute(manager: InterfaceManager, actions: seq<Action>)
    returns (ghost states: seq<Tables>, ghost times: seq<nat>)
    requires manager.Valid() && manager.Contents() == Tables({}, {})
    requires NewSubscribers(manager.subscribers, actions)
    modifies manager`subscribers, manager.links, manager.interfaces, manager.clock
    modifies set s | s in manager.subscribers, set a | a in actions && a.Subscription? :: a.subscriber
    ensures manager.Valid()
    ensures Run(manager.config, manager.deviceLinks, StepsOf(actions), states, times)
    ensures states[|actions|] == manager.Contents() && Good(manager.Contents(), manager.clock.time)
  {
    states, times := [manager.Contents()], [manager.clock.time];
    var taken: Option<Taken> := None;
    ghost var from: nat, to: nat, r := 0, 0, PollRecord(map[], map[], map[], map[], [], []);
    for i := 0 to |actions|
      invariant manager.Valid()
      invariant forall s :: s in manager.subscribers ==>
                  s in old(manager.subscribers) || exists j :: 0 <= j < i && actions[j] == Subscription(s)
      invariant Holds(manager.config, manager.deviceLinks, taken, Waiting(actions[..i]), from, to, r,
                      manager.clock.time)
      invariant Run(manager.config, manager.deviceLinks, StepsOf(actions[..i]), states, times)
      invariant states[i] == manager.Contents() && times[i] == manager.clock.time
    {
      ghost var waiting := Waiting(actions[..i]);
      assert actions[..i + 1] == actions[..i] + [actions[i]];
      WaitingExtends(actions[..i], actions[i]);
      taken, from, to, r := Act(manager, actions[i], taken, waiting, from, to, r);
      RunExtends(manager.config, manager.deviceLinks, actions[..i], states, times, actions[i],
                 manager.Contents(), manager.clock.time);
      states, times := states + [manager.Contents()], times + [manager.clock.time];
    }
    assert actions[..|actions|] == actions;
    RunsStayGood(manager.config, manager.deviceLinks, StepsOf(actions), states, times, |actions|);
  }

  lemma WaitingExtends(actions: seq<Action>, a: Action)
    ensures Waiting(actions + [a]) == WaitingAfter(Waiting(actions), a)
    ensures StepsOf(actions + [a]) == StepsOf(actions) + [StepOf(Waiting(actions), a)]
  {
    var all := actions + [a];
    assert all[..|actions|] == actions;
    forall i | 0 <= i < |actions| ensures StepsOf(all)[i] == StepsOf(actions)[i] {
      assert all[..i] == actions[..i];
    }
  }

  lemma RunExtends(config: Config, deviceLinks: map<string, string>, actions: seq<Action>, states: seq<Tables>,
                   times: seq<nat>, a: Action, t: Tables, time: nat)
    requires Run(config, deviceLinks, StepsOf(actions), states, times)
    requires Next(config, deviceLinks, StepOf(Waiting(actions), a), states[|actions|], times[|actions|], t, time)
    ensures Run(config, deviceLinks, StepsOf(actions + [a]), states + [t], times + [time])
  {
    WaitingExtends(actions, a);
    RunAppends(config, deviceLinks, StepsOf(actions), states, times, StepOf(Waiting(actions), a), t, time);
  }
}

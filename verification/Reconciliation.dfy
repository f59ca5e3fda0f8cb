/** The anti-entropy reconciliation of a status table with a snapshot, under the hold-down. */
module Reconciliation {
  import opened Wrappers
  import opened NetworkModel
  import opened InterfaceDatabase

  // ----- The drain of a snapshot in one order, step by step -----

  /** Where a drain stands: what is still in the table, what will be put back, what was announced. */
  datatype Progress<T(==)> =
    Progress(rest: set<Item<T>>, established: seq<Item<T>>, announced: seq<Item<T>>)

  /** A stored item may be replaced by a snapshot entry under the same id. */
  predicate Due<T(==)>(stored: Item<T>, entry: Item<T>) {
    stored.refreshed + HOLD_PERIOD < entry.refreshed && stored.status != entry.status
  }

  /** The stored item that removal by `id` takes out and whose id is `id` itself. */
  ghost function Same<T(!new)>(contents: set<Item<T>>, id: Id): (r: Option<Item<T>>)
    ensures r.Some? ==> r.value in contents && r.value.id == id && Shares(id, id)
    ensures r.None? ==> forall v :: v in contents && Shares(v.id, id) ==> v.id != id
  {
    if exists v :: v in contents && Shares(v.id, id) && v.id == id then
      var v :| v in contents && Shares(v.id, id) && v.id == id;
      Some(v)
    else
      None
  }

  ghost predicate Announces<T(!new)>(contents: set<Item<T>>, entry: Item<T>) {
    Same(contents, entry.id).None? || Due(Same(contents, entry.id).value, entry)
  }

  ghost function Outcome<T(!new)>(contents: set<Item<T>>, entry: Item<T>): Item<T> {
    if Announces(contents, entry) then entry else Same(contents, entry.id).value
  }

  ghost function DrainStep<T(!new)>(p: Progress<T>, entry: Item<T>): Progress<T> {
    Progress(Without(p.rest, entry.id),
             p.established + [Outcome(p.rest, entry)],
             if Announces(p.rest, entry) then p.announced + [entry] else p.announced)
  }

  ghost function Drain<T(!new)>(contents: set<Item<T>>, order: seq<Item<T>>): Progress<T> {
    if order == [] then Progress(contents, [], [])
    else DrainStep(Drain(contents, order[..|order| - 1]), order[|order| - 1])
  }

  lemma DrainExtends<T(!new)>(contents: set<Item<T>>, order: seq<Item<T>>, entry: Item<T>)
    ensures Drain(contents, order + [entry]) == DrainStep(Drain(contents, order), entry)
  {
    assert (order + [entry])[..|order|] == order;
  }

  ghost function Rebuild<T(!new)>(established: seq<Item<T>>): set<Item<T>> {
    if established == [] then {}
    else Put(Rebuild(established[..|established| - 1]), established[|established| - 1])
  }

  /** `order` lists the snapshot, each entry once. */
  ghost predicate Listing<T(!new)>(order: seq<Item<T>>, snapshot: set<Item<T>>) {
    && (forall v :: v in order <==> v in snapshot)
    && (forall j, k :: 0 <= j < k < |order| ==> order[j] != order[k])
  }

  ghost function FinalInOrder<T(!new)>(contents: set<Item<T>>, order: seq<Item<T>>): set<Item<T>> {
    Rebuild(Drain(contents, order).established)
  }

  // ----- The order-free meaning -----

  ghost function Final<T(!new)>(contents: set<Item<T>>, snapshot: set<Item<T>>): set<Item<T>> {
    set e | e in snapshot :: Outcome(contents, e)
  }

  ghost function Announced<T(!new)>(contents: set<Item<T>>, snapshot: set<Item<T>>): set<Item<T>> {
    set e | e in snapshot && Announces(contents, e)
  }

  ghost function Vanished<T(!new)>(contents: set<Item<T>>, snapshot: set<Item<T>>): set<Item<T>> {
    set v | v in contents && forall e :: e in snapshot ==> !Shares(v.id, e.id)
  }

  lemma SameIsUnique<T(!new)>(contents: set<Item<T>>, v: Item<T>)
    requires CollisionFree(contents) && v in contents && Shares(v.id, v.id)
    ensures Same(contents, v.id) == Some(v)
  {
  }

  ghost predicate Untouched<T>(v: Item<T>, order: seq<Item<T>>) {
    forall e :: e in order ==> !Shares(v.id, e.id)
  }

  lemma {:induction false} DrainRest<T(!new)>(contents: set<Item<T>>, order: seq<Item<T>>)
    ensures Drain(contents, order).rest == set v | v in contents && Untouched(v, order)
  {
    if order != [] {
      var before, entry := order[..|order| - 1], order[|order| - 1];
      DrainRest(contents, before);
      assert order == before + [entry];
      assert forall v: Item<T> :: Untouched(v, order) <==> Untouched(v, before) && !Shares(v.id, entry.id);
    }
  }

  /** A drained entry sees the table as it was before the drain. */
  lemma SameSurvives<T(!new)>(contents: set<Item<T>>, before: seq<Item<T>>, entry: Item<T>)
    requires CollisionFree(contents) && Untouched(entry, before)
    ensures Same(Drain(contents, before).rest, entry.id) == Same(contents, entry.id)
  {
    DrainRest(contents, before);
    var rest := Drain(contents, before).rest;
    if Same(contents, entry.id).Some? {
      var v := Same(contents, entry.id).value;
      assert v in rest && Shares(v.id, entry.id);
      SameIsUnique(contents, v);
      SameIsUnique(rest, v);
    }
  }

  ghost predicate NoneShared<T>(order: seq<Item<T>>) {
    forall j, k :: 0 <= j < k < |order| ==> !Shares(order[j].id, order[k].id)
  }

  lemma LastUntouched<T>(before: seq<Item<T>>, entry: Item<T>)
    requires NoneShared(before + [entry])
    ensures NoneShared(before) && Untouched(entry, before)
  {
    var order := before + [entry];
    forall e | e in before ensures !Shares(entry.id, e.id) {
      var j :| 0 <= j < |before| && before[j] == e;
      assert order[j] == e && !Shares(order[j].id, order[|before|].id);
    }
    forall j, k | 0 <= j < k < |before| ensures !Shares(before[j].id, before[k].id) {
      assert order[j] == before[j] && order[k] == before[k];
    }
  }

  lemma {:induction false} DrainEstablished<T(!new)>(contents: set<Item<T>>, order: seq<Item<T>>)
    requires CollisionFree(contents) && NoneShared(order)
    ensures |Drain(contents, order).established| == |order|
    ensures forall k :: 0 <= k < |order| ==> Drain(contents, order).established[k] == Outcome(contents, order[k])
  {
    if order != [] {
      var before, entry := order[..|order| - 1], order[|order| - 1];
      assert order == before + [entry];
      LastUntouched(before, entry);
      DrainEstablished(contents, before);
      SameSurvives(contents, before, entry);
    }
  }

  lemma {:induction false} DrainAnnounced<T(!new)>(contents: set<Item<T>>, order: seq<Item<T>>)
    requires CollisionFree(contents) && NoneShared(order)
    ensures forall e :: e in Drain(contents, order).announced <==> e in order && Announces(contents, e)
  {
    if order != [] {
      var before, entry := order[..|order| - 1], order[|order| - 1];
      assert order == before + [entry];
      LastUntouched(before, entry);
      DrainAnnounced(contents, before);
      SameSurvives(contents, before, entry);
    }
  }

  lemma {:induction false} RebuildCollisionFree<T(!new)>(established: seq<Item<T>>)
    requires NoneShared(established)
    ensures Rebuild(established) == set v | v in established
  {
    if established != [] {
      var before, v := established[..|established| - 1], established[|established| - 1];
      assert established == before + [v];
      LastUntouched(before, v);
      RebuildCollisionFree(before);
    }
  }

  lemma EstablishedIsFinal<T(!new)>(contents: set<Item<T>>, snapshot: set<Item<T>>,
                                   order: seq<Item<T>>, est: seq<Item<T>>)
    requires forall v :: v in order <==> v in snapshot
    requires |est| == |order| && forall k :: 0 <= k < |order| ==> est[k] == Outcome(contents, order[k])
    ensures (set v | v in est) == Final(contents, snapshot)
  {
    forall v | v in Final(contents, snapshot) ensures v in est {
      var e :| e in snapshot && v == Outcome(contents, e);
      var k :| 0 <= k < |order| && order[k] == e;
      assert est[k] == v;
    }
    forall v | v in est ensures v in Final(contents, snapshot) {
      var k :| 0 <= k < |est| && est[k] == v;
      assert order[k] in order;
    }
  }

  lemma ListingDoesNotCollide<T(!new)>(order: seq<Item<T>>, snapshot: set<Item<T>>)
    requires CollisionFree(snapshot) && Listing(order, snapshot)
    ensures NoneShared(order)
  {
    forall j, k | 0 <= j < k < |order| ensures !Shares(order[j].id, order[k].id) {
      assert order[j] in order && order[k] in order && order[j] != order[k];
    }
  }

  /** When no two snapshot entries share a key, what a poll leaves does not depend on its order. */
  lemma FinalClosedForm<T(!new)>(contents: set<Item<T>>, snapshot: set<Item<T>>, order: seq<Item<T>>)
    requires CollisionFree(contents) && CollisionFree(snapshot) && Listing(order, snapshot)
    ensures FinalInOrder(contents, order) == Final(contents, snapshot)
  {
    ListingDoesNotCollide(order, snapshot);
    DrainEstablished(contents, order);
    var est := Drain(contents, order).established;
    forall j, k | 0 <= j < k < |est| ensures !Shares(est[j].id, est[k].id) {
      assert est[j].id == order[j].id && est[k].id == order[k].id;
    }
    RebuildCollisionFree(est);
    EstablishedIsFinal(contents, snapshot, order, est);
  }

  /** Nor does what it announces, nor what it reports deleted. */
  lemma ReportsClosedForm<T(!new)>(contents: set<Item<T>>, snapshot: set<Item<T>>, order: seq<Item<T>>)
    requires CollisionFree(contents) && CollisionFree(snapshot) && Listing(order, snapshot)
    ensures (set e | e in Drain(contents, order).announced) == Announced(contents, snapshot)
    ensures Drain(contents, order).rest == Vanished(contents, snapshot)
  {
    ListingDoesNotCollide(order, snapshot);
    DrainAnnounced(contents, order);
    DrainRest(contents, order);
  }

  // ----- What becomes of each entry, status by status and stamp by stamp -----

  /** An entry leaves the stored item alone: it shows the same status, or comes within five seconds. */
  ghost predicate LeavesAlone<T(!new)>(v: Item<T>, e: Item<T>) {
    e.status == v.status || e.refreshed <= v.refreshed + 5_000_000_000
  }

  /** The item stored under the entry's id is kept silently, or the entry replaces it and is announced. */
  lemma StoredIdDecided<T(!new)>(contents: set<Item<T>>, snapshot: set<Item<T>>, order: seq<Item<T>>,
                                 v: Item<T>, e: Item<T>)
    requires CollisionFree(contents) && CollisionFree(snapshot) && Listing(order, snapshot)
    requires v in contents && Shares(v.id, v.id) && e in snapshot && e.id == v.id
    ensures LeavesAlone(v, e) ==> v in FinalInOrder(contents, order) && e !in Drain(contents, order).announced
    ensures !LeavesAlone(v, e) ==> e in FinalInOrder(contents, order) && e in Drain(contents, order).announced
  {
    ListingDoesNotCollide(order, snapshot);
    DrainAnnounced(contents, order);
    FinalClosedForm(contents, snapshot, order);
    SameIsUnique(contents, v);
    assert Outcome(contents, e) in Final(contents, snapshot);
  }

  /** An entry whose id is not stored is stored and announced. */
  lemma NewIdAnnounced<T(!new)>(contents: set<Item<T>>, snapshot: set<Item<T>>, order: seq<Item<T>>, e: Item<T>)
    requires CollisionFree(contents) && CollisionFree(snapshot) && Listing(order, snapshot)
    requires e in snapshot && forall v :: v in contents ==> v.id != e.id
    ensures e in FinalInOrder(contents, order) && e in Drain(contents, order).announced
  {
    ListingDoesNotCollide(order, snapshot);
    DrainAnnounced(contents, order);
    FinalClosedForm(contents, snapshot, order);
    assert Outcome(contents, e) in Final(contents, snapshot);
  }

  /** Nothing else is stored or announced, and each announcement is made once. */
  lemma NothingElse<T(!new)>(contents: set<Item<T>>, snapshot: set<Item<T>>, order: seq<Item<T>>)
    requires CollisionFree(contents) && CollisionFree(snapshot) && Listing(order, snapshot)
    ensures forall w :: w in FinalInOrder(contents, order) ==>
              w in snapshot || (w in contents && exists e :: e in snapshot && e.id == w.id)
    ensures forall e :: e in Drain(contents, order).announced ==> e in snapshot
    ensures var a := Drain(contents, order).announced; forall j, k :: 0 <= j < k < |a| ==> a[j] != a[k]
    ensures forall v :: v in Drain(contents, order).rest <==>
              v in contents && forall e :: e in snapshot ==> !Shares(v.id, e.id)
  {
    FinalClosedForm(contents, snapshot, order);
    DrainRest(contents, order);
    AnnouncedOnce(contents, order);
    forall w | w in Final(contents, snapshot)
      ensures w in snapshot || (w in contents && exists e :: e in snapshot && e.id == w.id)
    {
      var e :| e in snapshot && w == Outcome(contents, e);
    }
  }

  lemma {:induction false} AnnouncedOnce<T(!new)>(contents: set<Item<T>>, order: seq<Item<T>>)
    requires forall j, k :: 0 <= j < k < |order| ==> order[j] != order[k]
    ensures var a := Drain(contents, order).announced;
            (forall e :: e in a ==> e in order) && forall j, k :: 0 <= j < k < |a| ==> a[j] != a[k]
  {
    if order != [] {
      var before, entry := order[..|order| - 1], order[|order| - 1];
      AnnouncedOnce(contents, before);
      assert order == before + [entry];
      assert entry !in before;
    }
  }

  // ----- Order independence, exactly -----

  ghost predicate OrderIrrelevant<T(!new)>(snapshot: set<Item<T>>) {
    forall contents, o, o' ::
      CollisionFree(contents) && Listing(o, snapshot) && Listing(o', snapshot)
      ==> FinalInOrder(contents, o) == FinalInOrder(contents, o')
  }

  lemma {:induction false} SetHasListing<T(!new)>(s: set<Item<T>>) returns (order: seq<Item<T>>)
    ensures Listing(order, s)
    decreases |s|
  {
    if s == {} {
      order := [];
    } else {
      var v :| v in s;
      order := SetHasListing(s - {v});
      order := order + [v];
    }
  }

  lemma {:induction false} DrainOfNothing<T(!new)>(order: seq<Item<T>>)
    ensures Drain({}, order).rest == {} && Drain({}, order).established == order
  {
    if order != [] {
      DrainOfNothing(order[..|order| - 1]);
      assert order == order[..|order| - 1] + [order[|order| - 1]];
    }
  }

  lemma LastOneStays<T(!new)>(rest: seq<Item<T>>, e: Item<T>, e': Item<T>)
    requires e != e' && Shares(e.id, e'.id)
    ensures e' in Rebuild(rest + [e, e']) && e !in Rebuild(rest + [e, e'])
  {
    var all := rest + [e, e'];
    assert all[..|all| - 1] == rest + [e];
  }

  lemma CollidingPairDependsOnOrder<T(!new)>(snapshot: set<Item<T>>, e: Item<T>, e': Item<T>)
    requires e in snapshot && e' in snapshot && e != e' && Shares(e.id, e'.id)
    ensures !OrderIrrelevant(snapshot)
  {
    var rest := SetHasListing(snapshot - {e, e'});
    var o, o' := rest + [e, e'], rest + [e', e];
    assert Listing(o, snapshot) && Listing(o', snapshot);
    DrainOfNothing(o);
    DrainOfNothing(o');
    LastOneStays(rest, e, e');
    LastOneStays(rest, e', e);
    assert CollisionFree<T>({});
    assert FinalInOrder({}, o) != FinalInOrder({}, o');
  }

  /** Every order of a snapshot leaves every table alike if and only if no two of its entries
      share a key. */
  lemma OrderIrrelevantIffCollisionFree<T(!new)>(snapshot: set<Item<T>>)
    ensures OrderIrrelevant(snapshot) <==> CollisionFree(snapshot)
  {
    if CollisionFree(snapshot) {
      forall contents, o, o' | CollisionFree(contents) && Listing(o, snapshot) && Listing(o', snapshot)
        ensures FinalInOrder(contents, o) == FinalInOrder(contents, o')
      {
        FinalClosedForm(contents, snapshot, o);
        FinalClosedForm(contents, snapshot, o');
      }
    } else {
      var e, e' :| e in snapshot && e' in snapshot && e != e' && Shares(e.id, e'.id);
      CollidingPairDependsOnOrder(snapshot, e, e');
    }
  }

  // ----- Whatever the order and the snapshot -----

  lemma {:induction false} DrainFromEither<T(!new)>(contents: set<Item<T>>, order: seq<Item<T>>)
    ensures var p := Drain(contents, order);
            && (forall v :: v in p.established ==> v in contents || v in p.announced)
            && (forall v :: v in p.announced ==> v in order)
            && p.rest <= contents
  {
    if order != [] {
      var before, entry := order[..|order| - 1], order[|order| - 1];
      DrainFromEither(contents, before);
      assert order == before + [entry];
    }
  }

  lemma {:induction false} RebuildKeepsOnly<T(!new)>(established: seq<Item<T>>)
    ensures CollisionFree(Rebuild(established))
    ensures forall v :: v in Rebuild(established) ==> v in established
  {
    if established != [] {
      var before, v := established[..|established| - 1], established[|established| - 1];
      RebuildKeepsOnly(before);
      PutKeepsCollisionFree(Rebuild(before), v);
      assert established == before + [v];
    }
  }

  /** Even a colliding snapshot leaves a table without collisions, made of old items and of entries
      that were announced. */
  lemma FinalFromEither<T(!new)>(contents: set<Item<T>>, order: seq<Item<T>>)
    ensures CollisionFree(FinalInOrder(contents, order))
    ensures forall v :: v in FinalInOrder(contents, order) ==> v in contents || v in Drain(contents, order).announced
    ensures forall v :: v in Drain(contents, order).announced ==> v in order
  {
    DrainFromEither(contents, order);
    RebuildKeepsOnly(Drain(contents, order).established);
  }

  // ----- Accounting for every old item -----

  /** No two entries are listed under one id: the snapshot is a map from ids. */
  ghost predicate DistinctIds<T>(order: seq<Item<T>>) {
    forall j, k :: 0 <= j < k < |order| ==> order[j].id != order[k].id
  }

  /** An entry that may take the place of `v`: under the same id only after the hold. */
  ghost predicate Supersedes<T>(e: Item<T>, v: Item<T>) {
    Shares(e.id, v.id) && (e.id == v.id ==> Due(v, e))
  }

  /** What a drain does to an old item: nothing, or it is set aside to be put back, or an announced
      entry takes its place. */
  lemma {:induction false} DrainHits<T(!new)>(contents: set<Item<T>>, order: seq<Item<T>>, v: Item<T>)
    requires CollisionFree(contents) && v in contents
    ensures var p := Drain(contents, order);
            Untouched(v, order) || v in p.established || exists e :: e in p.announced && Supersedes(e, v)
  {
    if order != [] {
      var before, entry := order[..|order| - 1], order[|order| - 1];
      assert order == before + [entry];
      DrainHits(contents, before, v);
      if Untouched(v, before) && Shares(v.id, entry.id) {
        DrainRest(contents, before);
        FirstHit(contents, before, entry, v);
      }
    }
  }

  /** The first entry that shares a key with an old item. */
  lemma FirstHit<T(!new)>(contents: set<Item<T>>, before: seq<Item<T>>, entry: Item<T>, v: Item<T>)
    requires CollisionFree(contents) && v in contents
    requires v in Drain(contents, before).rest && Drain(contents, before).rest <= contents && Shares(v.id, entry.id)
    ensures var p := Drain(contents, before + [entry]);
            v in p.established || (entry in p.announced && Supersedes(entry, v))
  {
    DrainExtends(contents, before, entry);
    var rest := Drain(contents, before).rest;
    if entry.id == v.id {
      SameIsUnique(rest, v);
    } else {
      assert Same(rest, entry.id).None?;
    }
  }

  /** Each established item stands under the id of the entry it was decided for. */
  lemma {:induction false} EstablishedIds<T(!new)>(contents: set<Item<T>>, order: seq<Item<T>>)
    ensures |Drain(contents, order).established| == |order|
    ensures forall k :: 0 <= k < |order| ==> Drain(contents, order).established[k].id == order[k].id
  {
    if order != [] {
      EstablishedIds(contents, order[..|order| - 1]);
    }
  }

  /** Putting back loses an item only to another one that shares a key. */
  lemma {:induction false} RebuildLoses<T(!new)>(established: seq<Item<T>>, v: Item<T>)
    requires v in established
    ensures v in Rebuild(established)
         || exists w :: w in established && w != v && Shares(w.id, v.id)
  {
    var before, last := established[..|established| - 1], established[|established| - 1];
    assert established == before + [last];
    if v != last {
      RebuildLoses(before, v);
    }
  }

  /** Two established items have two entries, and so two ids. */
  lemma EstablishedDistinct<T(!new)>(contents: set<Item<T>>, order: seq<Item<T>>, v: Item<T>, w: Item<T>)
    requires DistinctIds(order) && v != w
    requires v in Drain(contents, order).established && w in Drain(contents, order).established
    ensures v.id != w.id
  {
    EstablishedIds(contents, order);
    var est := Drain(contents, order).established;
    var j :| 0 <= j < |est| && est[j] == v;
    var k :| 0 <= k < |est| && est[k] == w;
    assert order[j].id == v.id && order[k].id == w.id;
  }

  /** And that other one was announced. */
  lemma LostToAnnounced<T(!new)>(contents: set<Item<T>>, order: seq<Item<T>>, v: Item<T>)
    requires CollisionFree(contents) && DistinctIds(order) && v in contents
    requires v in Drain(contents, order).established && v !in FinalInOrder(contents, order)
    ensures exists e :: e in Drain(contents, order).announced && Supersedes(e, v)
  {
    var p := Drain(contents, order);
    RebuildLoses(p.established, v);
    var w :| w in p.established && w != v && Shares(w.id, v.id);
    DrainFromEither(contents, order);
    EstablishedDistinct(contents, order, v, w);
    assert Supersedes(w, v);
  }

  ghost predicate Keyed<T>(contents: set<Item<T>>) {
    forall v :: v in contents ==> Shares(v.id, v.id)
  }

  /** The fates of an old item, from the table a poll leaves and from what it reports. An announced
      entry under the same id takes its place after the hold; one under another id displaces it. */
  ghost predicate OneFateReported<T(!new)>(v: Item<T>, after: set<Item<T>>, announced: seq<Item<T>>,
                                           deleted: set<Item<T>>)
  {
    var kept, gone := v in after, v in deleted;
    var replaced := !kept && exists e :: e in announced && e.id == v.id && Due(v, e);
    var displaced := !kept && !replaced && exists e :: e in announced && e.id != v.id && Shares(e.id, v.id);
    && (kept || replaced || displaced || gone)
    && !(gone && (kept || replaced || displaced))
  }

  /** What is stored has the id of an entry. */
  lemma FinalIdsFromOrder<T(!new)>(contents: set<Item<T>>, order: seq<Item<T>>, w: Item<T>)
    requires w in FinalInOrder(contents, order)
    ensures exists e :: e in order && e.id == w.id
  {
    var est := Drain(contents, order).established;
    RebuildKeepsOnly(est);
    EstablishedIds(contents, order);
    var k :| 0 <= k < |est| && est[k] == w;
    assert order[k] in order && order[k].id == w.id;
  }

  /** An item reported deleted shares no key with anything the poll stored or announced. */
  lemma DeletedOnly<T(!new)>(contents: set<Item<T>>, order: seq<Item<T>>, v: Item<T>)
    requires v in Drain(contents, order).rest
    ensures forall e :: e in Drain(contents, order).announced ==> !Shares(e.id, v.id)
    ensures forall w :: w in FinalInOrder(contents, order) ==> !Shares(w.id, v.id)
  {
    assert Untouched(v, order) by { DrainRest(contents, order); }
    DrainFromEither(contents, order);
    forall w | w in FinalInOrder(contents, order) ensures !Shares(w.id, v.id) {
      FinalIdsFromOrder(contents, order, w);
    }
  }

  /** In any order of any snapshot, colliding or not, each old item is kept, replaced under its id,
      displaced, or reported deleted: exactly one of the four. No item goes silently, not even one
      that is evicted while the established items are put back. */
  lemma PollAccounting<T(!new)>(contents: set<Item<T>>, order: seq<Item<T>>, v: Item<T>)
    requires CollisionFree(contents) && DistinctIds(order) && v in contents && Shares(v.id, v.id)
    ensures var p := Drain(contents, order);
            OneFateReported(v, FinalInOrder(contents, order), p.announced, p.rest)
  {
    DrainHits(contents, order, v);
    DrainRest(contents, order);
    if v in Drain(contents, order).rest {
      DeletedOnly(contents, order, v);
    } else if v !in FinalInOrder(contents, order) {
      if v in Drain(contents, order).established {
        LostToAnnounced(contents, order, v);
      }
      var e :| e in Drain(contents, order).announced && Supersedes(e, v);
    }
  }

  // ----- What is announced is stored, exactly -----

  ghost predicate AnnouncedAreStored<T(!new)>(snapshot: set<Item<T>>) {
    forall contents, order :: CollisionFree(contents) && Listing(order, snapshot) ==>
      forall e :: e in Drain(contents, order).announced ==> e in FinalInOrder(contents, order)
  }

  lemma {:induction false} AllAnnouncedToNothing<T(!new)>(order: seq<Item<T>>)
    ensures Drain({}, order).announced == order
  {
    if order != [] {
      AllAnnouncedToNothing(order[..|order| - 1]);
      DrainOfNothing(order[..|order| - 1]);
      assert order == order[..|order| - 1] + [order[|order| - 1]];
    }
  }

  lemma AnnouncedStays<T(!new)>(contents: set<Item<T>>, snapshot: set<Item<T>>, order: seq<Item<T>>)
    requires CollisionFree(contents) && CollisionFree(snapshot) && Listing(order, snapshot)
    ensures forall e :: e in Drain(contents, order).announced ==> e in FinalInOrder(contents, order)
  {
    FinalClosedForm(contents, snapshot, order);
    ReportsClosedForm(contents, snapshot, order);
    forall e | e in Drain(contents, order).announced ensures e in Final(contents, snapshot) {
      assert e in (set x | x in Drain(contents, order).announced);
      assert e in Announced(contents, snapshot);
      assert Outcome(contents, e) == e;
    }
  }

  lemma CollidingPairLosesOne<T(!new)>(snapshot: set<Item<T>>, e: Item<T>, e': Item<T>)
    requires e in snapshot && e' in snapshot && e != e' && Shares(e.id, e'.id)
    ensures !AnnouncedAreStored(snapshot)
  {
    var order := SetHasListing(snapshot);
    AllAnnouncedToNothing(order);
    FinalFromEither({}, order);
    assert CollisionFree<T>({});
    assert e in order && e' in order;
    assert !(e in FinalInOrder({}, order) && e' in FinalInOrder({}, order));
  }

  /** Whatever is announced is in the table afterwards if and only if no two entries of the snapshot
      share a key. */
  lemma AnnouncedAreStoredIffCollisionFree<T(!new)>(snapshot: set<Item<T>>)
    ensures AnnouncedAreStored(snapshot) <==> CollisionFree(snapshot)
  {
    if CollisionFree(snapshot) {
      forall contents, order | CollisionFree(contents) && Listing(order, snapshot)
        ensures forall e :: e in Drain(contents, order).announced ==> e in FinalInOrder(contents, order)
      {
        AnnouncedStays(contents, snapshot, order);
      }
    } else {
      var e, e' :| e in snapshot && e' in snapshot && e != e' && Shares(e.id, e'.id);
      CollidingPairLosesOne(snapshot, e, e');
    }
  }

  // ----- The same for a snapshot without collisions, in no particular order -----

  ghost predicate Kept<T(!new)>(contents: set<Item<T>>, snapshot: set<Item<T>>, v: Item<T>) {
    v in Final(contents, snapshot)
  }

  /** Another item under the same id is in its place and was announced, after the hold. */
  ghost predicate Replaced<T(!new)>(contents: set<Item<T>>, snapshot: set<Item<T>>, v: Item<T>) {
    exists e :: e in snapshot && e.id == v.id && e != v && Due(v, e)
                && e in Final(contents, snapshot) && e in Announced(contents, snapshot)
  }

  /** An entry with a key in common but another id took its place. */
  ghost predicate Displaced<T(!new)>(contents: set<Item<T>>, snapshot: set<Item<T>>, v: Item<T>) {
    exists e :: e in snapshot && e.id != v.id && Shares(e.id, v.id)
                && e in Final(contents, snapshot) && v !in Final(contents, snapshot)
  }

  ghost predicate OneFate<T(!new)>(contents: set<Item<T>>, snapshot: set<Item<T>>, v: Item<T>) {
    var kept, replaced, displaced, deleted :=
      Kept(contents, snapshot, v), Replaced(contents, snapshot, v),
      Displaced(contents, snapshot, v), v in Vanished(contents, snapshot);
    && (kept || replaced || displaced || deleted)
    && !(kept && (replaced || displaced)) && !(replaced && displaced)
    && !(deleted && (kept || replaced || displaced))
  }

  /** Without collisions the item in the place of an old one is itself in the table, and the entry
      that decides its fate is the only one with a key in common. */
  lemma FateWithoutCollisions<T(!new)>(contents: set<Item<T>>, snapshot: set<Item<T>>, v: Item<T>)
    requires CollisionFree(contents) && CollisionFree(snapshot) && v in contents && Shares(v.id, v.id)
    ensures OneFate(contents, snapshot, v)
    ensures forall e :: e in snapshot && e.id != v.id && Shares(e.id, v.id) ==> e in Announced(contents, snapshot)
  {
    SameIsUnique(contents, v);
    forall e | e in snapshot && e.id != v.id && Shares(e.id, v.id) ensures Announces(contents, e) {
    }
    if e :| e in snapshot && Shares(v.id, e.id) {
      OnlyHitDecides(contents, snapshot, v, e);
      if e.id != v.id || Due(v, e) {
        EntryTakesPlace(contents, snapshot, v, e);
      }
    } else {
      VanishedIsGone(contents, snapshot, v);
    }
  }

  /** An entry that takes the place of an old item is stored. */
  lemma EntryTakesPlace<T(!new)>(contents: set<Item<T>>, snapshot: set<Item<T>>, v: Item<T>, e: Item<T>)
    requires CollisionFree(contents) && v in contents && Shares(v.id, v.id)
    requires e in snapshot && Shares(v.id, e.id) && (e.id == v.id ==> Due(v, e))
    ensures e in Final(contents, snapshot) && e in Announced(contents, snapshot)
  {
    SameIsUnique(contents, v);
    assert Outcome(contents, e) == e;
  }

  /** What a poll announces is exactly what is new in the table. */
  lemma AnnouncedAreNew<T(!new)>(contents: set<Item<T>>, snapshot: set<Item<T>>)
    requires CollisionFree(contents) && Keyed(snapshot)
    ensures Announced(contents, snapshot) == Final(contents, snapshot) - contents
  {
    forall e | e in Announced(contents, snapshot) ensures e in Final(contents, snapshot) && e !in contents {
      assert Outcome(contents, e) == e;
      if e in contents {
        SameIsUnique(contents, e);
      }
    }
    forall v | v in Final(contents, snapshot) && v !in contents ensures v in Announced(contents, snapshot) {
      var e :| e in snapshot && Outcome(contents, e) == v;
    }
  }

  lemma VanishedIsGone<T(!new)>(contents: set<Item<T>>, snapshot: set<Item<T>>, v: Item<T>)
    requires v in Vanished(contents, snapshot) && Shares(v.id, v.id)
    ensures v !in Final(contents, snapshot)
    ensures !Replaced(contents, snapshot, v) && !Displaced(contents, snapshot, v)
  {
  }

  /** Among the snapshot's entries only one can have a key of `v`, and it decides what becomes of it. */
  lemma OnlyHitDecides<T(!new)>(contents: set<Item<T>>, snapshot: set<Item<T>>, v: Item<T>, e: Item<T>)
    requires CollisionFree(contents) && CollisionFree(snapshot)
    requires v in contents && Shares(v.id, v.id) && e in snapshot && Shares(v.id, e.id)
    ensures e.id != v.id ==> v !in Final(contents, snapshot) && !Replaced(contents, snapshot, v)
    ensures e.id == v.id ==> (v in Final(contents, snapshot) <==> !Due(v, e)) && !Displaced(contents, snapshot, v)
    ensures e.id == v.id && !Due(v, e) ==> !Replaced(contents, snapshot, v)
  {
    SameIsUnique(contents, v);
    forall f | f in snapshot && f.id == v.id ensures f == e {
      assert Shares(f.id, e.id);
    }
    if v in Final(contents, snapshot) {
      var f :| f in snapshot && Outcome(contents, f) == v;
      assert f.id == v.id;
    }
  }

  // ----- Identity and hold-down over runs -----

  ghost function Ids<T>(contents: set<Item<T>>): set<Id> {
    set v | v in contents :: v.id
  }

  /** After a poll the table holds exactly the snapshot's ids, still without collisions. */
  lemma FinalHasSnapshotIds<T(!new)>(contents: set<Item<T>>, snapshot: set<Item<T>>)
    requires CollisionFree(snapshot)
    ensures Ids(Final(contents, snapshot)) == Ids(snapshot)
    ensures CollisionFree(Final(contents, snapshot))
  {
    FinalIds(contents, snapshot);
    FinalCollisionFree(contents, snapshot);
  }

  lemma FinalIds<T(!new)>(contents: set<Item<T>>, snapshot: set<Item<T>>)
    ensures Ids(Final(contents, snapshot)) == Ids(snapshot)
  {
    var final := Final(contents, snapshot);
    forall id | id in Ids(snapshot) ensures id in Ids(final) {
      var e :| e in snapshot && e.id == id;
      assert Outcome(contents, e) in final;
    }
    forall id | id in Ids(final) ensures id in Ids(snapshot) {
      var v :| v in final && v.id == id;
      var e :| e in snapshot && Outcome(contents, e) == v;
      assert e in snapshot && e.id == id;
    }
  }

  lemma FinalCollisionFree<T(!new)>(contents: set<Item<T>>, snapshot: set<Item<T>>)
    requires CollisionFree(snapshot)
    ensures CollisionFree(Final(contents, snapshot))
  {
    var final := Final(contents, snapshot);
    forall v, w | v in final && w in final && v != w ensures !Shares(v.id, w.id) {
      var e :| e in snapshot && Outcome(contents, e) == v;
      var f :| f in snapshot && Outcome(contents, f) == w;
      assert e != f && e.id == v.id && f.id == w.id;
    }
  }

  ghost function Holder<T(!new)>(contents: set<Item<T>>, id: Id): Item<T>
    requires id in Ids(contents)
  {
    var v :| v in contents && v.id == id;
    v
  }

  ghost predicate Trace<T(!new)>(states: seq<set<Item<T>>>, snapshots: seq<set<Item<T>>>) {
    && |states| == |snapshots| + 1
    && CollisionFree(states[0])
    && forall i :: 0 <= i < |snapshots| ==>
         CollisionFree(snapshots[i]) && states[i + 1] == Final(states[i], snapshots[i])
  }

  ghost predicate StoredThroughout<T(!new)>(states: seq<set<Item<T>>>, id: Id) {
    forall i :: 0 <= i < |states| ==> id in Ids(states[i])
  }

  ghost function StatusChanges<T(!new)>(states: seq<set<Item<T>>>, id: Id): nat
    requires |states| > 0 && StoredThroughout(states, id)
  {
    if |states| == 1 then 0
    else
      var n := |states| - 1;
      StatusChanges(states[..n], id)
      + if Holder(states[n], id).status != Holder(states[n - 1], id).status then 1 else 0
  }

  lemma PollHolds<T(!new)>(contents: set<Item<T>>, snapshot: set<Item<T>>, id: Id)
    requires CollisionFree(contents) && CollisionFree(snapshot)
    requires Shares(id, id) && id in Ids(contents) && id in Ids(snapshot)
    ensures id in Ids(Final(contents, snapshot))
    ensures var v, w := Holder(contents, id), Holder(Final(contents, snapshot), id);
            w == v || (w == Holder(snapshot, id) && w.status != v.status
                       && v.refreshed + 5_000_000_000 < w.refreshed)
  {
    FinalHasSnapshotIds(contents, snapshot);
    var v, w := Holder(contents, id), Holder(Final(contents, snapshot), id);
    SameIsUnique(contents, v);
    var e :| e in snapshot && Outcome(contents, e) == w;
    assert e == Holder(snapshot, id) by { assert Shares(e.id, Holder(snapshot, id).id); }
  }

  lemma {:induction false} StaysStored<T(!new)>(states: seq<set<Item<T>>>, snapshots: seq<set<Item<T>>>, id: Id, i: nat)
    requires Trace(states, snapshots) && id in Ids(states[0]) && i < |states|
    requires forall j :: 0 <= j < |snapshots| ==> id in Ids(snapshots[j])
    ensures CollisionFree(states[i]) && id in Ids(states[i])
  {
    if i > 0 {
      FinalHasSnapshotIds(states[i - 1], snapshots[i - 1]);
    }
  }

  /** `last` was stamped more than n hold periods after `first`; no earlier if n is zero. */
  ghost predicate HeldFor<T>(first: Item<T>, n: nat, last: Item<T>) {
    && first.refreshed + n * HOLD_PERIOD <= last.refreshed
    && (n > 0 ==> first.refreshed + n * HOLD_PERIOD < last.refreshed)
  }

  lemma HoldAdds<T>(first: Item<T>, n: nat, v: Item<T>, w: Item<T>)
    requires HeldFor(first, n, v) && (w == v || Due(v, w))
    ensures HeldFor(first, n + if w.status != v.status then 1 else 0, w)
  {
  }

  lemma StaysThroughout<T(!new)>(states: seq<set<Item<T>>>, snapshots: seq<set<Item<T>>>, id: Id)
    requires Trace(states, snapshots) && id in Ids(states[0])
    requires forall j :: 0 <= j < |snapshots| ==> id in Ids(snapshots[j])
    ensures StoredThroughout(states, id) && forall i :: 0 <= i < |states| ==> CollisionFree(states[i])
  {
    forall i | 0 <= i < |states| ensures CollisionFree(states[i]) && id in Ids(states[i]) {
      StaysStored(states, snapshots, id, i);
    }
  }

  lemma TraceBefore<T(!new)>(states: seq<set<Item<T>>>, snapshots: seq<set<Item<T>>>, n: nat)
    requires Trace(states, snapshots) && n < |snapshots|
    ensures Trace(states[..n + 1], snapshots[..n]) && states[..n + 1][n] == states[n]
    ensures states[n + 1] == Final(states[n], snapshots[n])
    ensures CollisionFree(snapshots[n])
  {
  }

  lemma LastChange<T(!new)>(states: seq<set<Item<T>>>, id: Id, n: nat)
    requires |states| == n + 2 && StoredThroughout(states, id)
    ensures StoredThroughout(states[..n + 1], id)
    ensures StatusChanges(states, id) == StatusChanges(states[..n + 1], id)
            + if Holder(states[n + 1], id).status != Holder(states[n], id).status then 1 else 0
  {
  }

  /** While an id stays in every snapshot, n status changes take more than n hold periods. */
  lemma {:induction false} Debounce<T(!new)>(states: seq<set<Item<T>>>, snapshots: seq<set<Item<T>>>, id: Id)
    requires Trace(states, snapshots) && Shares(id, id) && id in Ids(states[0])
    requires forall i :: 0 <= i < |snapshots| ==> id in Ids(snapshots[i])
    ensures StoredThroughout(states, id) && forall i :: 0 <= i < |states| ==> CollisionFree(states[i])
    ensures HeldFor(Holder(states[0], id), StatusChanges(states, id), Holder(states[|states| - 1], id))
  {
    StaysThroughout(states, snapshots, id);
    if snapshots != [] {
      var n: nat := |snapshots| - 1;
      TraceBefore(states, snapshots, n);
      Debounce(states[..n + 1], snapshots[..n], id);
      PollHolds(states[n], snapshots[n], id);
      LastChange(states, id, n);
      HoldAdds(Holder(states[0], id), StatusChanges(states[..n + 1], id),
               Holder(states[n], id), Holder(states[n + 1], id));
    }
  }

  // ----- The reconciliation itself -----

  method FindById<T>(list: seq<Item<T>>, id: Id) returns (r: Option<Item<T>>)
    ensures r.Some? ==> r.value in list && r.value.id == id
    ensures r.None? ==> forall v :: v in list ==> v.id != id
  {
    for i := 0 to |list|
      invariant forall k :: 0 <= k < i ==> list[k].id != id
    {
      if list[i].id == id {
        return Some(list[i]);
      }
    }
    r := None;
  }

  lemma FoundIsSame<T(!new)>(items: map<nat, Item<T>>, id: Id, found: Option<Item<T>>)
    requires UniqueKeys(items)
    requires found.Some? ==> found.value in Evicted(items, id) && found.value.id == id
    requires found.None? ==> forall v :: v in Evicted(items, id) ==> v.id != id
    ensures found == Same(set s | s in items :: items[s], id)
  {
    var all := set s | s in items :: items[s];
    EvictedExactly(items, id);
    ContentsCollisionFree(items);
    if found.Some? {
      var s :| s in Hits(items, id) && items[s] == found.value;
      SameIsUnique(all, found.value);
    } else {
      forall v | v in all && Shares(v.id, id) ensures v.id != id {
        var s :| s in items && items[s] == v;
        assert s in Hits(items, id) && v in Evicted(items, id);
      }
    }
  }

  /** What is put back for an entry, and whether it is announced. */
  ghost predicate Decided<T(!new)>(contents: set<Item<T>>, entry: Item<T>, established: Item<T>, announce: bool) {
    && (forall v :: v in contents && v.id == entry.id && Shares(v.id, v.id) ==>
          if LeavesAlone(v, entry) then established == v && !announce else established == entry && announce)
    && ((forall v :: v in contents && Shares(v.id, v.id) ==> v.id != entry.id) ==> established == entry && announce)
  }

  lemma OutcomeDecided<T(!new)>(contents: set<Item<T>>, entry: Item<T>)
    requires CollisionFree(contents)
    ensures Decided(contents, entry, Outcome(contents, entry), Announces(contents, entry))
  {
    forall v | v in contents && v.id == entry.id && Shares(v.id, v.id) ensures Same(contents, entry.id) == Some(v) {
      SameIsUnique(contents, v);
    }
  }

  /** One snapshot entry: takes out everything it shares a key with, and decides what is put back. */
  method ReconcileEntry<T(==,!new)>(table: StatusTable<T>, entry: Item<T>)
    returns (established: Item<T>, announce: bool)
    requires table.Valid()
    modifies table
    ensures table.Valid() && table.Contents() == Without(old(table.Contents()), entry.id)
    ensures established == Outcome(old(table.Contents()), entry)
    ensures announce == Announces(old(table.Contents()), entry)
    ensures Decided(old(table.Contents()), entry, established, announce)
  {
    ghost var items := table.items;
    AgreementMakesKeysUnique(table.Entries(), items);
    var removed := table.RemoveItem(entry.id);
    var found := FindById(removed, entry.id);
    FoundIsSame(items, entry.id, found);
    announce := found.None? || Due(found.value, entry);
    established := if announce then entry else found.value;
    ContentsCollisionFree(items);
    OutcomeDecided(old(table.Contents()), entry);
  }

  method PutBack<T(!new)>(table: StatusTable<T>, established: seq<Item<T>>)
    requires table.Valid() && table.Contents() == {}
    modifies table
    ensures table.Valid() && table.Contents() == Rebuild(established)
  {
    for i := 0 to |established|
      invariant table.Valid() && table.Contents() == Rebuild(established[..i])
    {
      var _ := table.SetItem(established[i]);
      assert established[..i + 1][..i] == established[..i];
    }
    assert established[..|established|] == established;
  }

  lemma ListingExtends<T(!new)>(order: seq<Item<T>>, snapshot: map<Id, Item<T>>, pending: map<Id, Item<T>>, id: Id)
    requires forall i :: i in snapshot ==> snapshot[i].id == i
    requires Listing(order, set i | i in snapshot && i !in pending :: snapshot[i])
    requires id in pending && id in snapshot
    ensures Listing(order + [snapshot[id]], set i | i in snapshot && i !in pending - {id} :: snapshot[i])
  {
    var done := set i | i in snapshot && i !in pending :: snapshot[i];
    assert snapshot[id] !in done;
    assert (set i | i in snapshot && i !in pending - {id} :: snapshot[i]) == done + {snapshot[id]};
  }

  /** Drains the snapshot in an arbitrary order against the table. */
  method DrainSnapshot<T(==,!new)>(table: StatusTable<T>, snapshot: map<Id, Item<T>>)
    returns (established: seq<Item<T>>, announced: seq<Item<T>>, ghost order: seq<Item<T>>)
    requires table.Valid()
    requires forall id :: id in snapshot ==> snapshot[id].id == id
    modifies table
    ensures table.Valid()
    ensures Listing(order, set id | id in snapshot :: snapshot[id])
    ensures Drain(old(table.Contents()), order) == Progress(table.Contents(), established, announced)
  {
    ghost var start := table.Contents();
    established, announced, order := [], [], [];
    var pending := snapshot;
    while pending != map[]
      invariant table.Valid()
      invariant pending.Keys <= snapshot.Keys && forall id :: id in pending ==> pending[id] == snapshot[id]
      invariant Listing(order, set id | id in snapshot && id !in pending :: snapshot[id])
      invariant Drain(start, order) == Progress(table.Contents(), established, announced)
      decreases pending.Keys
    {
      var id :| id in pending;
      var entry := pending[id];
      var kept, announce := ReconcileEntry(table, entry);
      established := established + [kept];
      if announce {
        announced := announced + [entry];
      }
      DrainExtends(start, order, entry);
      ListingExtends(order, snapshot, pending, id);
      order, pending := order + [entry], pending - {id};
    }
  }

  /** Drains the snapshot, reports what is left in the table, and puts the established items back. */
  method Reconcile<T(==,!new)>(table: StatusTable<T>, snapshot: map<Id, Item<T>>)
    returns (announced: seq<Item<T>>, deleted: seq<Item<T>>, ghost order: seq<Item<T>>)
    requires table.Valid()
    requires forall id :: id in snapshot ==> snapshot[id].id == id
    modifies table
    ensures table.Valid()
    ensures Listing(order, set id | id in snapshot :: snapshot[id])
    ensures table.Contents() == FinalInOrder(old(table.Contents()), order)
    ensures announced == Drain(old(table.Contents()), order).announced
    ensures ReportsOnce(deleted, Drain(old(table.Contents()), order).rest)
  {
    var established;
    established, announced, order := DrainSnapshot(table, snapshot);
    ghost var slots;
    ghost var items := table.items;
    AgreementMakesKeysUnique(table.Entries(), items);
    deleted, slots := table.TakeAll();
    SlotsReportOnce(items, slots, deleted);
    PutBack(table, established);
  }

  /** `list` holds exactly the items of `contents`, each item with a key once. */
  ghost predicate ReportsOnce<T(!new)>(list: seq<Item<T>>, contents: set<Item<T>>) {
    && (forall v :: v in list <==> v in contents)
    && (forall j, k :: 0 <= j < k < |list| && Shares(list[j].id, list[j].id) ==> list[j] != list[k])
  }

  lemma SlotsReportOnce<T>(items: map<nat, Item<T>>, slots: seq<nat>, list: seq<Item<T>>)
    requires UniqueKeys(items) && |slots| == |list|
    requires forall k :: 0 <= k < |slots| ==> slots[k] in items && list[k] == items[slots[k]]
    requires forall j, k :: 0 <= j < k < |slots| ==> slots[j] != slots[k]
    ensures forall j, k :: 0 <= j < k < |list| && Shares(list[j].id, list[j].id) ==> list[j] != list[k]
  {
    forall j, k | 0 <= j < k < |list| && Shares(list[j].id, list[j].id) ensures list[j] != list[k] {
      assert !Shares(items[slots[j]].id, items[slots[k]].id);
    }
  }
}

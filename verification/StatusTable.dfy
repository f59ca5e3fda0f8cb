/** The status table: one primary map and three secondary indexes over it. The link table and the
    interface table have the same shape, so it is written once, generic in the status. */
module InterfaceDatabase {
  import opened Wrappers
  import opened NetworkModel

  // ----- The plain view: slots and items, no indexes -----

  ghost predicate UniqueKeys<T>(items: map<nat, Item<T>>) {
    forall s, t :: s in items && t in items && s != t ==> !Shares(items[s].id, items[t].id)
  }

  /** The slots a linear scan finds sharing a key with `id`. */
  ghost function Hits<T>(items: map<nat, Item<T>>, id: Id): set<nat> {
    set s | s in items && Shares(items[s].id, id)
  }

  ghost function FirstHit<T>(items: map<nat, Item<T>>, id: Id): seq<Item<T>> {
    if Hits(items, id) == {} then [] else var s :| s in Hits(items, id); [items[s]]
  }

  function OnlyName(id: Id): Id { Id(None, id.name, None) }

  function OnlyDevice(id: Id): Id { Id(None, None, id.device) }

  function OnlyIndex(id: Id): Id { Id(id.index, None, None) }

  /** What is taken out for `id`, in order: the holder of its name, then of its device among the
      rest, then of its index among the rest. */
  ghost function Evicted<T>(items: map<nat, Item<T>>, id: Id): seq<Item<T>> {
    var rest := items - Hits(items, OnlyName(id));
    FirstHit(items, OnlyName(id)) + FirstHit(rest, OnlyDevice(id))
    + FirstHit(rest - Hits(rest, OnlyDevice(id)), OnlyIndex(id))
  }

  // ----- The index agreement, on values -----

  datatype Indexes = Indexes(byName: map<string, nat>, byDevice: map<string, nat>, byIndex: map<nat, nat>)

  ghost predicate Reaches(x: Indexes, id: Id, slot: nat) {
    && (id.name.Some? ==> id.name.value in x.byName && x.byName[id.name.value] == slot)
    && (id.device.Some? ==> id.device.value in x.byDevice && x.byDevice[id.device.value] == slot)
    && (id.index.Some? ==> id.index.value in x.byIndex && x.byIndex[id.index.value] == slot)
  }

  /** Every key of a live item leads to it, and no entry leads to a live item without the key.
      Entries for slots already taken out are tolerated: removal runs in such states. */
  ghost predicate Agrees<T>(x: Indexes, items: map<nat, Item<T>>) {
    && (forall s :: s in items ==> Reaches(x, items[s].id, s))
    && (forall n :: n in x.byName && x.byName[n] in items ==> items[x.byName[n]].id.name == Some(n))
    && (forall d :: d in x.byDevice && x.byDevice[d] in items ==> items[x.byDevice[d]].id.device == Some(d))
    && (forall i :: i in x.byIndex && x.byIndex[i] in items ==> items[x.byIndex[i]].id.index == Some(i))
  }

  /** Every entry leads to a live item. */
  ghost predicate NoStaleEntry<T>(x: Indexes, items: map<nat, Item<T>>) {
    && (forall n :: n in x.byName ==> x.byName[n] in items)
    && (forall d :: d in x.byDevice ==> x.byDevice[d] in items)
    && (forall i :: i in x.byIndex ==> x.byIndex[i] in items)
  }

  /** No key of `id` has an entry. */
  ghost predicate Unreachable(x: Indexes, id: Id) {
    && (id.name.Some? ==> id.name.value !in x.byName)
    && (id.device.Some? ==> id.device.value !in x.byDevice)
    && (id.index.Some? ==> id.index.value !in x.byIndex)
  }

  /** One index after a removal: entries only went away, none changed, and none leads to a slot
      that the removal took out. */
  ghost predicate PrunedMap<K>(before: map<K, nat>, after: map<K, nat>, gone: set<nat>) {
    forall k :: k in after ==> k in before && after[k] == before[k] && after[k] !in gone
  }

  ghost predicate Pruned(before: Indexes, after: Indexes, gone: set<nat>) {
    && PrunedMap(before.byName, after.byName, gone)
    && PrunedMap(before.byDevice, after.byDevice, gone)
    && PrunedMap(before.byIndex, after.byIndex, gone)
  }

  lemma AgreementMakesKeysUnique<T>(x: Indexes, items: map<nat, Item<T>>)
    requires Agrees(x, items)
    ensures UniqueKeys(items)
  {
  }

  /** From `x` to `y` only entries for `slot` went away. */
  ghost predicate LostOnly(x: Indexes, y: Indexes, slot: nat) {
    && Pruned(x, y, {})
    && (forall n :: n in x.byName && x.byName[n] != slot ==> n in y.byName)
    && (forall d :: d in x.byDevice && x.byDevice[d] != slot ==> d in y.byDevice)
    && (forall i :: i in x.byIndex && x.byIndex[i] != slot ==> i in y.byIndex)
  }

  /** The effect of removing by `id`: exactly the hits are gone, and every entry leading to one of
      them or carrying a key of `id` is forgotten. */
  ghost predicate Removed<T>(items: map<nat, Item<T>>, items': map<nat, Item<T>>,
                             x: Indexes, x': Indexes, id: Id)
  {
    && items' == items - Hits(items, id)
    && Pruned(x, x', Hits(items, id))
    && Unreachable(x', id)
  }

  /** Taking out slot `s` and one entry for it: the rest still agrees, and nothing left shares a
      key with the item. */
  lemma TakeOutSlot<T>(x: Indexes, y: Indexes, items: map<nat, Item<T>>, s: nat)
    requires Agrees(x, items) && s in items && LostOnly(x, y, s)
    ensures Agrees(y, items - {s})
    ensures Hits(items - {s}, items[s].id) == {}
  {
    forall t | t in items - {s} ensures Reaches(y, items[t].id, t) && !Shares(items[t].id, items[s].id) {
      assert Reaches(x, items[t].id, t) && Reaches(x, items[s].id, s);
    }
  }

  lemma TakenOut<T>(items: map<nat, Item<T>>, x: Indexes, y: Indexes, z: Indexes, s: nat, probe: Id)
    requires s in items && Agrees(x, items) && LostOnly(x, y, s)
    requires Hits(items, probe) == {s} && Unreachable(y, probe)
    requires Pruned(y, z, {}) && Unreachable(z, items[s].id)
    ensures Removed(items, items - {s}, x, z, probe)
    ensures FirstHit(items, probe) == [items[s]]
  {
    assert Pruned(x, z, {});
    assert FirstHit(items, probe) == [items[s]] by {
      var t :| t in Hits(items, probe) && FirstHit(items, probe) == [items[t]];
      assert t == s;
    }
  }

  /** The slot an index entry leads to is the only one that can carry the key. */
  lemma EntryDecides<T>(x: Indexes, y: Indexes, items: map<nat, Item<T>>, slot: nat, probe: Id)
    requires Agrees(x, items)
    requires probe.name.Some? || probe.device.Some? || probe.index.Some?
    requires probe == OnlyName(probe) || probe == OnlyDevice(probe) || probe == OnlyIndex(probe)
    requires Reaches(x, probe, slot)
    requires Pruned(x, y, {}) && Unreachable(y, probe)
    requires LostOnly(x, y, slot)
    ensures slot in items ==> Shares(items[slot].id, probe) && Hits(items, probe) == {slot}
    ensures slot !in items ==> Hits(items, probe) == {} && Agrees(y, items) && Removed(items, items, x, y, probe)
  {
    assert forall s :: s in Hits(items, probe) ==> Reaches(x, items[s].id, s) && s == slot;
    if slot !in items {
      assert Hits(items, probe) == {};
      assert items - {} == items;
    }
  }

  lemma NoEntryNoHit<T>(x: Indexes, items: map<nat, Item<T>>, probe: Id)
    requires Agrees(x, items) && Unreachable(x, probe)
    ensures Hits(items, probe) == {} && Removed(items, items, x, x, probe)
  {
    assert forall s :: s in items ==> Reaches(x, items[s].id, s) && !Shares(items[s].id, probe);
    assert Hits(items, probe) == {};
    assert items - {} == items;
  }

  lemma NothingRemoved<T>(m: map<nat, Item<T>>, m': map<nat, Item<T>>, x: Indexes, x': Indexes, id: Id)
    requires Hits(m, id) == {} && Removed(m, m', x, x', id)
    ensures m' == m && Pruned(x, x', {}) && Unreachable(x', id) && Evicted(m, id) == []
  {
    NoHitsNothingEvicted(m, id);
    assert m - {} == m;
  }

  lemma PhasesCompose<T>(m0: map<nat, Item<T>>, m1: map<nat, Item<T>>, m2: map<nat, Item<T>>, m3: map<nat, Item<T>>,
                         x0: Indexes, x1: Indexes, x2: Indexes, x3: Indexes, id: Id, d: seq<Item<T>>)
    requires Removed(m0, m1, x0, x1, OnlyName(id))
    requires Removed(m1, m2, x1, x2, OnlyDevice(id))
    requires Removed(m2, m3, x2, x3, OnlyIndex(id))
    ensures Removed(m0, m3, x0, x3, id)
    ensures d + FirstHit(m0, OnlyName(id)) + FirstHit(m1, OnlyDevice(id)) + FirstHit(m2, OnlyIndex(id))
      == d + Evicted(m0, id)
  {
    var h := Hits(m0, id);
    PhasesCover(m0, m1, m2, id);
    assert m3 == m0 - h;
  }

  lemma NoHitsNothingEvicted<T>(items: map<nat, Item<T>>, id: Id)
    requires Hits(items, id) == {}
    ensures Evicted(items, id) == []
  {
    forall s | s in items ensures !Shares(items[s].id, id) {
      assert s !in Hits(items, id);
    }
    assert Hits(items, OnlyName(id)) == {} && Hits(items, OnlyDevice(id)) == {} && Hits(items, OnlyIndex(id)) == {};
    assert items - {} == items;
  }

  // ----- What the table's operations mean for its contents -----

  /** `list` holds the items of the slots in `h`, each exactly once. */
  ghost predicate Lists<T>(items: map<nat, Item<T>>, h: set<nat>, list: seq<Item<T>>)
    requires h <= items.Keys
  {
    && |list| == |h|
    && (forall s :: s in h ==> items[s] in list)
    && (forall v :: v in list ==> exists s :: s in h && items[s] == v)
    && (forall j, k :: 0 <= j < k < |list| ==> list[j] != list[k])
  }

  lemma ListsCompose<T>(items: map<nat, Item<T>>, h: set<nat>, h': set<nat>, a: seq<Item<T>>, b: seq<Item<T>>)
    requires h <= items.Keys && h' <= items.Keys && h !! h'
    requires Lists(items, h, a) && Lists(items, h', b)
    requires forall s, t :: s in h && t in h' ==> items[s] != items[t]
    ensures Lists(items, h + h', a + b)
  {
    forall j, k | 0 <= j < |a| <= k < |a + b| ensures (a + b)[j] != (a + b)[k] {
      assert a[j] in a && b[k - |a|] in b;
    }
    forall v | v in a + b ensures exists s :: s in h + h' && items[s] == v {
      if v in a {
        var s :| s in h && items[s] == v;
      } else {
        var s :| s in h' && items[s] == v;
      }
    }
  }

  /** Removal lists every item sharing a key with the id exactly once, and at most three of them. */
  lemma EvictedExactly<T>(items: map<nat, Item<T>>, id: Id)
    requires UniqueKeys(items)
    ensures Lists(items, Hits(items, id), Evicted(items, id))
    ensures |Evicted(items, id)| <= 3
  {
    var rest := items - Hits(items, OnlyName(id));
    var rest' := rest - Hits(rest, OnlyDevice(id));
    AtMostOneHit(items, items, OnlyName(id));
    AtMostOneHit(items, rest, OnlyDevice(id));
    AtMostOneHit(items, rest', OnlyIndex(id));
    PhasesCover(items, rest, rest', id);
    ListsComposeThree(items, id,
                      Hits(items, OnlyName(id)), Hits(rest, OnlyDevice(id)), Hits(rest', OnlyIndex(id)),
                      FirstHit(items, OnlyName(id)), FirstHit(rest, OnlyDevice(id)), FirstHit(rest', OnlyIndex(id)));
  }

  /** 0 for a shared name, 1 for a shared device, 2 otherwise. */
  function Rank(a: Id, id: Id): nat {
    if a.name.Some? && a.name == id.name then 0 else if a.device.Some? && a.device == id.device then 1 else 2
  }

  lemma FirstHitRanked<T>(items: map<nat, Item<T>>, probe: Id)
    ensures |FirstHit(items, probe)| <= 1
    ensures forall v :: v in FirstHit(items, probe) ==> Shares(v.id, probe) && exists s :: s in items && items[s] == v
  {
  }

  /** They are listed with the holder of the name first and the holder of the index alone last. */
  lemma EvictedInOrder<T>(items: map<nat, Item<T>>, id: Id)
    ensures var list := Evicted(items, id);
            forall j, k :: 0 <= j < k < |list| ==> Rank(list[j].id, id) < Rank(list[k].id, id)
  {
    var rest := items - Hits(items, OnlyName(id));
    var rest' := rest - Hits(rest, OnlyDevice(id));
    FirstHitRanked(items, OnlyName(id));
    FirstHitRanked(rest, OnlyDevice(id));
    FirstHitRanked(rest', OnlyIndex(id));
    assert forall v :: v in FirstHit(items, OnlyName(id)) ==> Rank(v.id, id) == 0;
    assert forall v :: v in FirstHit(rest, OnlyDevice(id)) ==> Rank(v.id, id) == 1;
    assert forall v :: v in FirstHit(rest', OnlyIndex(id)) ==> Rank(v.id, id) == 2;
  }

  /** The three phases of a removal take out disjoint parts of the hits, and all of them. */
  lemma PhasesCover<T>(m0: map<nat, Item<T>>, m1: map<nat, Item<T>>, m2: map<nat, Item<T>>, id: Id)
    requires m1 == m0 - Hits(m0, OnlyName(id)) && m2 == m1 - Hits(m1, OnlyDevice(id))
    ensures var a, b, c := Hits(m0, OnlyName(id)), Hits(m1, OnlyDevice(id)), Hits(m2, OnlyIndex(id));
            Hits(m0, id) == a + b + c && a !! b && (a + b) !! c
  {
  }

  lemma ListsComposeThree<T>(items: map<nat, Item<T>>, id: Id, a: set<nat>, b: set<nat>, c: set<nat>,
                             la: seq<Item<T>>, lb: seq<Item<T>>, lc: seq<Item<T>>)
    requires UniqueKeys(items)
    requires Hits(items, id) == a + b + c && a !! b && (a + b) !! c
    requires a <= items.Keys && b <= items.Keys && c <= items.Keys
    requires Lists(items, a, la) && Lists(items, b, lb) && Lists(items, c, lc)
    ensures Lists(items, Hits(items, id), la + lb + lc)
  {
    HitsDiffer(items, id);
    ListsCompose(items, a, b, la, lb);
    ListsCompose(items, a + b, c, la + lb, lc);
  }

  lemma HitsDiffer<T>(items: map<nat, Item<T>>, id: Id)
    requires UniqueKeys(items)
    ensures forall s, t :: s in Hits(items, id) && t in Hits(items, id) && s != t ==> items[s] != items[t]
  {
    forall s, t | s in Hits(items, id) && t in Hits(items, id) && s != t ensures items[s] != items[t] {
      assert !Shares(items[s].id, items[t].id);
    }
  }

  lemma AtMostOneHit<T>(all: map<nat, Item<T>>, items: map<nat, Item<T>>, probe: Id)
    requires UniqueKeys(all) && items.Keys <= all.Keys && forall s :: s in items ==> items[s] == all[s]
    requires probe == OnlyName(probe) || probe == OnlyDevice(probe) || probe == OnlyIndex(probe)
    ensures Lists(all, Hits(items, probe), FirstHit(items, probe)) && |FirstHit(items, probe)| <= 1
  {
    var h := Hits(items, probe);
    if h != {} {
      var s :| s in h && FirstHit(items, probe) == [items[s]];
      forall t | t in h ensures t == s {
        assert Shares(items[s].id, items[t].id);
      }
      assert h == {s};
    }
  }

  lemma RemovalOnContents<T>(items: map<nat, Item<T>>, id: Id)
    ensures var rest := items - Hits(items, id);
            (set s | s in rest :: rest[s]) == Without(set s | s in items :: items[s], id)
  {
    var rest := items - Hits(items, id);
    var all := set s | s in items :: items[s];
    forall v | v in Without(all, id) ensures v in (set s | s in rest :: rest[s]) {
      var s :| s in items && items[s] == v;
      assert s in rest && rest[s] == v;
    }
  }

  lemma InsertionAgrees<T>(x: Indexes, y: Indexes, items: map<nat, Item<T>>, slot: nat, item: Item<T>)
    requires Agrees(x, items) && NoStaleEntry(x, items) && slot !in items
    requires Unreachable(x, item.id)
    requires y.byName == if item.id.name.Some? then x.byName[item.id.name.value := slot] else x.byName
    requires y.byDevice == if item.id.device.Some? then x.byDevice[item.id.device.value := slot] else x.byDevice
    requires y.byIndex == if item.id.index.Some? then x.byIndex[item.id.index.value := slot] else x.byIndex
    ensures Agrees(y, items[slot := item]) && NoStaleEntry(y, items[slot := item])
  {
    var all := items[slot := item];
    InsertionReaches(x, y, items, slot, item);
    assert forall n :: n in y.byName ==> y.byName[n] in all && all[y.byName[n]].id.name == Some(n);
    assert forall d :: d in y.byDevice ==> y.byDevice[d] in all && all[y.byDevice[d]].id.device == Some(d);
  }

  lemma InsertionReaches<T>(x: Indexes, y: Indexes, items: map<nat, Item<T>>, slot: nat, item: Item<T>)
    requires forall s :: s in items ==> Reaches(x, items[s].id, s)
    requires Unreachable(x, item.id)
    requires y.byName == if item.id.name.Some? then x.byName[item.id.name.value := slot] else x.byName
    requires y.byDevice == if item.id.device.Some? then x.byDevice[item.id.device.value := slot] else x.byDevice
    requires y.byIndex == if item.id.index.Some? then x.byIndex[item.id.index.value := slot] else x.byIndex
    ensures var all := items[slot := item]; forall t :: t in all ==> Reaches(y, all[t].id, t)
  {
  }

  lemma InsertionOnContents<T>(items: map<nat, Item<T>>, slot: nat, item: Item<T>)
    requires slot !in items
    ensures var all := items[slot := item];
            (set s | s in all :: all[s]) == (set s | s in items :: items[s]) + {item}
  {
    var all := items[slot := item];
    assert slot in all && all[slot] == item;
    assert forall s :: s in items ==> s in all && all[s] == items[s];
  }

  lemma LookupIsScan<T>(x: Indexes, items: map<nat, Item<T>>, index: nat)
    requires Agrees(x, items)
    ensures FindByIndex(set s | s in items :: items[s], index)
      == if index in x.byIndex && x.byIndex[index] in items then Some(items[x.byIndex[index]]) else None
  {
    var all := set s | s in items :: items[s];
    forall v | v in all && v.id.index == Some(index)
      ensures index in x.byIndex && x.byIndex[index] in items && v == items[x.byIndex[index]]
    {
      var s :| s in items && items[s] == v;
      assert Reaches(x, items[s].id, s);
    }
    if index in x.byIndex && x.byIndex[index] in items {
      assert items[x.byIndex[index]] in all;
    }
  }

  lemma SlotsListContents<T>(items: map<nat, Item<T>>, slots: seq<nat>, taken: seq<Item<T>>)
    requires |slots| == |taken|
    requires forall k :: 0 <= k < |slots| ==> slots[k] in items && taken[k] == items[slots[k]]
    requires forall s :: s in items ==> s in slots
    ensures forall v :: v in taken <==> v in (set s | s in items :: items[s])
  {
    forall v | v in (set s | s in items :: items[s]) ensures v in taken {
      var s :| s in items && items[s] == v;
      var k :| 0 <= k < |slots| && slots[k] == s;
      assert taken[k] == v;
    }
  }

  lemma ContentsCollisionFree<T>(items: map<nat, Item<T>>)
    requires UniqueKeys(items)
    ensures CollisionFree(set s | s in items :: items[s])
  {
    var all := set s | s in items :: items[s];
    forall v, w | v in all && w in all && v != w ensures !Shares(v.id, w.id) {
      var s :| s in items && items[s] == v;
      var t :| t in items && items[t] == w;
      assert s != t;
    }
  }

  class StatusTable<T> {
    var nextSlot: nat
    var byName: map<string, nat>
    var byDevice: map<string, nat>
    var byIndex: map<nat, nat>
    var items: map<nat, Item<T>>

    ghost function Contents(): set<Item<T>>
      reads this
    {
      set s | s in items :: items[s]
    }

    ghost function Entries(): Indexes
      reads this
    {
      Indexes(byName, byDevice, byIndex)
    }

    /** The index agreement. */
    ghost predicate Valid()
      reads this
    {
      && Agrees(Entries(), items)
      && NoStaleEntry(Entries(), items)
      && (forall s :: s in items ==> s < nextSlot)
    }

    constructor ()
      ensures Valid() && items == map[] && nextSlot == 0
    {
      nextSlot := 0;
      byName, byDevice, byIndex := map[], map[], map[];
      items := map[];
    }

    /** Takes the item in `slot` out, then removes by the item's own id, which only clears the
        entries under its other keys. */
    method TakeOut(slot: nat, deleted: seq<Item<T>>, ghost probe: Id, ghost x: Indexes)
      returns (deleted': seq<Item<T>>)
      requires slot in items && Agrees(x, items) && LostOnly(x, Entries(), slot)
      requires Shares(items[slot].id, probe) && Hits(items, probe) == {slot} && Unreachable(Entries(), probe)
      modifies this
      ensures Agrees(Entries(), items) && nextSlot == old(nextSlot)
      ensures Removed(old(items), items, x, Entries(), probe)
      ensures deleted' == deleted + FirstHit(old(items), probe)
      decreases |items|, 0
    {
      var item := items[slot];
      ghost var before, y := items, Entries();
      TakeOutSlot(x, Entries(), items, slot);
      items := items - {slot};
      ghost var m := items;
      deleted' := Remove(item.id, deleted);
      NothingRemoved(m, items, y, Entries(), item.id);
      assert deleted' == deleted;
      deleted' := deleted' + [item];
      TakenOut(before, x, y, Entries(), slot, probe);
    }

    method RemoveByName(name: Option<string>, deleted: seq<Item<T>>) returns (deleted': seq<Item<T>>)
      requires Agrees(Entries(), items)
      modifies this
      ensures Agrees(Entries(), items) && nextSlot == old(nextSlot)
      ensures Removed(old(items), items, old(Entries()), Entries(), Id(None, name, None))
      ensures deleted' == deleted + FirstHit(old(items), Id(None, name, None))
      decreases |items|, 1
    {
      deleted' := deleted;
      if name.Some? && name.value in byName {
        var slot := byName[name.value];
        ghost var x := Entries();
        byName := byName - {name.value};
        EntryDecides(x, Entries(), items, slot, Id(None, name, None));
        if slot in items {
          deleted' := TakeOut(slot, deleted', Id(None, name, None), x);
        }
      } else {
        NoEntryNoHit(Entries(), items, Id(None, name, None));
      }
    }

    method RemoveByDevice(device: Option<string>, deleted: seq<Item<T>>) returns (deleted': seq<Item<T>>)
      requires Agrees(Entries(), items)
      modifies this
      ensures Agrees(Entries(), items) && nextSlot == old(nextSlot)
      ensures Removed(old(items), items, old(Entries()), Entries(), Id(None, None, device))
      ensures deleted' == deleted + FirstHit(old(items), Id(None, None, device))
      decreases |items|, 1
    {
      deleted' := deleted;
      if device.Some? && device.value in byDevice {
        var slot := byDevice[device.value];
        ghost var x := Entries();
        byDevice := byDevice - {device.value};
        EntryDecides(x, Entries(), items, slot, Id(None, None, device));
        if slot in items {
          deleted' := TakeOut(slot, deleted', Id(None, None, device), x);
        }
      } else {
        NoEntryNoHit(Entries(), items, Id(None, None, device));
      }
    }

    method RemoveByIndex(index: Option<nat>, deleted: seq<Item<T>>) returns (deleted': seq<Item<T>>)
      requires Agrees(Entries(), items)
      modifies this
      ensures Agrees(Entries(), items) && nextSlot == old(nextSlot)
      ensures Removed(old(items), items, old(Entries()), Entries(), Id(index, None, None))
      ensures deleted' == deleted + FirstHit(old(items), Id(index, None, None))
      decreases |items|, 1
    {
      deleted' := deleted;
      if index.Some? && index.value in byIndex {
        var slot := byIndex[index.value];
        ghost var x := Entries();
        byIndex := byIndex - {index.value};
        EntryDecides(x, Entries(), items, slot, Id(index, None, None));
        if slot in items {
          deleted' := TakeOut(slot, deleted', Id(index, None, None), x);
        }
      } else {
        NoEntryNoHit(Entries(), items, Id(index, None, None));
      }
    }

    // ----- Removal, insertion, lookup, draining -----

    /** Takes out exactly the items that share a key with `id`, appends each once in the order its
        key is looked up, and forgets every index entry that led to one of them. */
    method Remove(id: Id, deleted: seq<Item<T>>) returns (deleted': seq<Item<T>>)
      requires Agrees(Entries(), items)
      modifies this
      ensures Agrees(Entries(), items) && nextSlot == old(nextSlot)
      ensures Removed(old(items), items, old(Entries()), Entries(), id)
      ensures deleted' == deleted + Evicted(old(items), id)
      decreases |items|, 2
    {
      ghost var m0, x0 := items, Entries();
      deleted' := RemoveByName(id.name, deleted);
      ghost var m1, x1 := items, Entries();
      deleted' := RemoveByDevice(id.device, deleted');
      ghost var m2, x2 := items, Entries();
      deleted' := RemoveByIndex(id.index, deleted');
      PhasesCompose(m0, m1, m2, items, x0, x1, x2, Entries(), id, deleted);
    }

    /** `Remove` as the workers call it: between calls no entry is stale, and none becomes so. */
    method RemoveItem(id: Id) returns (deleted: seq<Item<T>>)
      requires Valid()
      modifies this
      ensures Valid() && nextSlot == old(nextSlot)
      ensures items == old(items) - Hits(old(items), id)
      ensures deleted == Evicted(old(items), id)
      ensures Contents() == Without(old(Contents()), id)
      ensures Unreachable(Entries(), id)
    {
      deleted := Remove(id, []);
      RemovalOnContents(old(items), id);
    }

    /** Puts an item whose keys are free into a new slot. */
    method Insert(item: Item<T>)
      requires Valid() && Unreachable(Entries(), item.id)
      modifies this
      ensures Valid()
      ensures old(nextSlot) !in old(items) && nextSlot == old(nextSlot) + 1
      ensures items == old(items)[old(nextSlot) := item]
      ensures Contents() == old(Contents()) + {item}
    {
      ghost var before, x := items, Entries();
      var index := nextSlot;
      nextSlot := nextSlot + 1;
      if item.id.name.Some? {
        byName := byName[item.id.name.value := index];
      }
      if item.id.index.Some? {
        byIndex := byIndex[item.id.index.value := index];
      }
      if item.id.device.Some? {
        byDevice := byDevice[item.id.device.value := index];
      }
      items := items[index := item];
      InsertionAgrees(x, Entries(), before, index, item);
      InsertionOnContents(before, index, item);
    }

    method SetItem(item: Item<T>) returns (deleted: seq<Item<T>>)
      requires Valid()
      modifies this
      ensures Valid()
      ensures old(nextSlot) !in old(items) && nextSlot == old(nextSlot) + 1
      ensures items == (old(items) - Hits(old(items), item.id))[old(nextSlot) := item]
      ensures deleted == Evicted(old(items), item.id)
      ensures Contents() == Put(old(Contents()), item)
    {
      deleted := RemoveItem(item.id);
      Insert(item);
    }

    method GetByIndex(index: nat) returns (r: Option<Item<T>>)
      requires Valid()
      ensures r == FindByIndex(Contents(), index)
    {
      r := None;
      if index in byIndex {
        if byIndex[index] in items {
          r := Some(items[byIndex[index]]);
        }
      }
      LookupIsScan(Entries(), items, index);
    }

    /** Empties the table, listing every slot's item once in some order. */
    method TakeAll() returns (taken: seq<Item<T>>, ghost slots: seq<nat>)
      modifies this
      ensures Valid() && items == map[] && nextSlot == 0
      ensures |slots| == |taken| == |old(items)|
      ensures forall k :: 0 <= k < |slots| ==> slots[k] in old(items) && taken[k] == old(items)[slots[k]]
      ensures forall j, k :: 0 <= j < k < |slots| ==> slots[j] != slots[k]
      ensures forall v :: v in taken <==> v in old(Contents())
    {
      nextSlot := 0;
      byName, byDevice, byIndex := map[], map[], map[];
      taken, slots := [], [];
      while items != map[]
        invariant items.Keys <= old(items).Keys && forall s :: s in items ==> items[s] == old(items)[s]
        invariant |slots| == |taken| && |taken| + |items| == |old(items)|
        invariant forall k :: 0 <= k < |slots| ==>
                    slots[k] in old(items) && slots[k] !in items && taken[k] == old(items)[slots[k]]
        invariant forall j, k :: 0 <= j < k < |slots| ==> slots[j] != slots[k]
        invariant forall s :: s in old(items) ==> s in items || s in slots
        invariant byName == map[] && byDevice == map[] && byIndex == map[] && nextSlot == 0
        decreases items.Keys
      {
        var s :| s in items;
        taken, slots := taken + [items[s]], slots + [s];
        items := items - {s};
      }
      SlotsListContents(old(items), slots, taken);
    }
  }
}

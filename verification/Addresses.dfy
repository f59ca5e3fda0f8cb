/** The order on addresses, and sorted address lists. */
module Addresses {
  import opened NetworkModel

  /** The derived order: version 4 before version 6, then the address bits, then the prefix length. */
  predicate AtMost(a: IpAddress, b: IpAddress) {
    match (a.address, b.address)
    case (V4(_), V6(_)) => true
    case (V6(_), V4(_)) => false
    case (_, _) =>
      a.address.bits < b.address.bits || (a.address.bits == b.address.bits && a.prefix <= b.prefix)
  }

  /** What the order is: total, version 4 first, then by bits, then by prefix length. */
  lemma AddressOrder(a: IpAddress, b: IpAddress, c: IpAddress)
    ensures AtMost(a, b) || AtMost(b, a)
    ensures AtMost(a, b) && AtMost(b, a) <==> a == b
    ensures AtMost(a, b) && AtMost(b, c) ==> AtMost(a, c)
    ensures a.address.V4? && b.address.V6? ==> AtMost(a, b) && a != b
    ensures (a.address.V4? <==> b.address.V4?) && a.address.bits < b.address.bits ==> AtMost(a, b) && !AtMost(b, a)
    ensures a.address == b.address && a.prefix < b.prefix ==> AtMost(a, b) && !AtMost(b, a)
  {
  }

  ghost predicate Sorted(s: seq<IpAddress>) {
    forall i, j :: 0 <= i < j < |s| ==> AtMost(s[i], s[j])
  }

  function Insert(a: IpAddress, s: seq<IpAddress>): (r: seq<IpAddress>)
    ensures multiset(r) == multiset(s) + multiset{a}
  {
    if s == [] || AtMost(a, s[0]) then [a] + s
    else
      assert s == [s[0]] + s[1..];
      [s[0]] + Insert(a, s[1..])
  }

  function Sort(s: seq<IpAddress>): (r: seq<IpAddress>)
    ensures multiset(r) == multiset(s)
  {
    if s == [] then []
    else
      assert s == s[..|s| - 1] + [s[|s| - 1]];
      Insert(s[|s| - 1], Sort(s[..|s| - 1]))
  }

  /** What is left after taking out the first element equal to `a`, if there is one. */
  function RemoveFirst(s: seq<IpAddress>, a: IpAddress): (r: seq<IpAddress>)
    ensures multiset(r) == multiset(s) - multiset{a}
  {
    if s == [] then []
    else
      assert s == [s[0]] + s[1..];
      if s[0] == a then s[1..] else [s[0]] + RemoveFirst(s[1..], a)
  }

  lemma SortedFromHead(head: IpAddress, tail: seq<IpAddress>)
    requires Sorted(tail) && forall x :: x in tail ==> AtMost(head, x)
    ensures Sorted([head] + tail)
  {
  }

  lemma {:induction false} InsertKeepsSorted(a: IpAddress, s: seq<IpAddress>)
    requires Sorted(s)
    ensures Sorted(Insert(a, s))
  {
    if s != [] && !AtMost(a, s[0]) {
      InsertKeepsSorted(a, s[1..]);
      forall x | x in Insert(a, s[1..]) ensures AtMost(s[0], x) {
        assert x in multiset(s[1..]) + multiset{a};
      }
      SortedFromHead(s[0], Insert(a, s[1..]));
    }
  }

  lemma {:induction false} SortSorts(s: seq<IpAddress>)
    ensures Sorted(Sort(s))
  {
    if s != [] {
      SortSorts(s[..|s| - 1]);
      InsertKeepsSorted(s[|s| - 1], Sort(s[..|s| - 1]));
    }
  }

  lemma RemoveFirstKeepsOnly(s: seq<IpAddress>, a: IpAddress)
    ensures forall x :: x in RemoveFirst(s, a) ==> x in s
  {
    forall x | x in RemoveFirst(s, a) ensures x in s {
      assert x in multiset(s) - multiset{a};
    }
  }

  lemma {:induction false} RemoveFirstKeepsSorted(s: seq<IpAddress>, a: IpAddress)
    requires Sorted(s)
    ensures Sorted(RemoveFirst(s, a))
  {
    if s != [] && s[0] != a {
      RemoveFirstKeepsSorted(s[1..], a);
      RemoveFirstKeepsOnly(s[1..], a);
      SortedFromHead(s[0], RemoveFirst(s[1..], a));
    }
  }

  lemma RestOfMultiset(s: seq<IpAddress>)
    requires s != []
    ensures s == [s[0]] + s[1..] && multiset(s[1..]) == multiset(s) - multiset{s[0]}
  {
    assert s == [s[0]] + s[1..];
  }

  lemma {:induction false} SortedIsUnique(s: seq<IpAddress>, t: seq<IpAddress>)
    requires Sorted(s) && Sorted(t) && multiset(s) == multiset(t)
    ensures s == t
  {
    assert |s| == |multiset(s)| && |t| == |multiset(t)|;
    if s != [] {
      assert s[0] in multiset(t) && t[0] in multiset(s);
      assert AtMost(s[0], t[0]) && AtMost(t[0], s[0]);
      RestOfMultiset(s);
      RestOfMultiset(t);
      SortedIsUnique(s[1..], t[1..]);
    }
  }

  lemma DeleteFromSorted(s: seq<IpAddress>, a: IpAddress, t: seq<IpAddress>)
    requires Sorted(s) && Sorted(t) && multiset(t) == multiset(s + [a])
    ensures RemoveFirst(t, a) == s
  {
    assert multiset(s + [a]) == multiset(s) + multiset{a};
    RemoveFirstKeepsSorted(t, a);
    SortedIsUnique(RemoveFirst(t, a), s);
  }

  /** Adding an address to a sorted list and then deleting it gives the list back. */
  lemma AddThenDelete(s: seq<IpAddress>, a: IpAddress)
    requires Sorted(s)
    ensures RemoveFirst(Sort(s + [a]), a) == s
  {
    SortSorts(s + [a]);
    DeleteFromSorted(s, a, Sort(s + [a]));
  }
}

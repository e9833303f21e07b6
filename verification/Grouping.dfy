// Dictionaries of lists that are grown with `setdefault(key, []).append(item)`, together with the
// insertion order that iterating over them follows.
module Grouping {
  import opened Sequences

  function Members<T, K(==)>(items: seq<T>, key: T -> K, k: K): seq<T> {
    if items == [] then []
    else (if key(items[0]) == k then [items[0]] else []) + Members(items[1..], key, k)
  }

  // `a` is a key of some item before any item has the key `b`.
  ghost predicate IsSeenBefore<T, K>(a: K, b: K, items: seq<T>, key: T -> K) {
    exists k | 0 <= k < |items| :: key(items[k]) == a && forall m | 0 <= m <= k :: key(items[m]) != b
  }

  ghost predicate AreInOrderOfSight<T, K>(order: seq<K>, items: seq<T>, key: T -> K) {
    forall i, j | 0 <= i < j < |order| :: IsSeenBefore(order[i], order[j], items, key)
  }

  ghost predicate AreMembers<T, K(!new)>(groups: map<K, seq<T>>, items: seq<T>, key: T -> K) {
    && (forall k <- groups :: groups[k] == Members(items, key, k))
    && (forall k :: k in groups <==> Members(items, key, k) != [])
  }

  ghost predicate IsGrouping<T, K(!new)>(groups: map<K, seq<T>>, order: seq<K>, items: seq<T>, key: T -> K) {
    && Distinct(order)
    && (forall k :: k in order <==> k in groups)
    && AreMembers(groups, items, key)
    && AreInOrderOfSight(order, items, key)
  }

  lemma {:induction false} MembersAre<T, K>(items: seq<T>, key: T -> K, k: K)
    ensures forall x :: x in Members(items, key, k) <==> x in items && key(x) == k
  {
    if items != [] {
      MembersAre(items[1..], key, k);
      assert items == [items[0]] + items[1..];
    }
  }

  lemma {:induction false} MembersKeepDistinct<T, K>(items: seq<T>, key: T -> K, k: K)
    requires Distinct(items)
    ensures Distinct(Members(items, key, k))
  {
    if items != [] {
      MembersKeepDistinct(items[1..], key, k);
      MembersAre(items[1..], key, k);
    }
  }

  lemma {:induction false} MembersOfAppended<T, K>(items: seq<T>, key: T -> K, x: T, k: K)
    ensures Members(items + [x], key, k) == Members(items, key, k) + (if key(x) == k then [x] else [])
  {
    if items == [] {
      assert items + [x] == [x];
    } else {
      assert (items + [x])[1..] == items[1..] + [x];
      MembersOfAppended(items[1..], key, x, k);
      Associate(if key(items[0]) == k then [items[0]] else [], Members(items[1..], key, k),
                if key(x) == k then [x] else []);
    }
  }

  lemma MembersGrow<T, K(!new)>(items: seq<T>, key: T -> K, x: T)
    ensures forall k :: Members(items + [x], key, k)
                        == if key(x) == k then Members(items, key, k) + [x] else Members(items, key, k)
  {
    forall k: K
      ensures Members(items + [x], key, k)
           == if key(x) == k then Members(items, key, k) + [x] else Members(items, key, k)
    {
      MembersOfAppended(items, key, x, k);
      assert Members(items, key, k) + [] == Members(items, key, k);
    }
  }

  lemma SightStays<T, K(!new)>(order: seq<K>, items: seq<T>, key: T -> K, x: T)
    requires AreInOrderOfSight(order, items, key)
    ensures AreInOrderOfSight(order, items + [x], key)
  {
    forall i, j | 0 <= i < j < |order|
      ensures IsSeenBefore(order[i], order[j], items + [x], key)
    {
      assert IsSeenBefore(order[i], order[j], items, key);
      var k :| 0 <= k < |items| && key(items[k]) == order[i] && forall m | 0 <= m <= k :: key(items[m]) != order[j];
      assert (items + [x])[k] == items[k];
      assert forall m | 0 <= m <= k :: (items + [x])[m] == items[m];
    }
  }

  lemma NewIsSeenLast<T, K(!new)>(order: seq<K>, items: seq<T>, key: T -> K, x: T)
    requires AreInOrderOfSight(order, items, key)
    requires Members(items, key, key(x)) == [] && forall k <- order :: Members(items, key, k) != []
    ensures AreInOrderOfSight(order + [key(x)], items + [x], key)
  {
    SightStays(order, items, key, x);
    forall i, j | 0 <= i < j < |order + [key(x)]|
      ensures IsSeenBefore((order + [key(x)])[i], (order + [key(x)])[j], items + [x], key)
    {
      if j == |order| {
        assert order[i] in order;
        OldIsSeenBefore(items, key, x, order[i]);
      }
    }
  }

  lemma {:induction false} MemberAt<T, K>(items: seq<T>, key: T -> K, k: K)
    ensures Members(items, key, k) != [] <==> exists i | 0 <= i < |items| :: key(items[i]) == k
  {
    if items != [] {
      MemberAt(items[1..], key, k);
      if i :| 0 < i < |items| && key(items[i]) == k {
        assert items[1..][i - 1] == items[i];
      }
      if i :| 0 <= i < |items[1..]| && key(items[1..][i]) == k {
        assert items[i + 1] == items[1..][i];
      }
    }
  }

  lemma OldIsSeenBefore<T, K(!new)>(items: seq<T>, key: T -> K, x: T, k: K)
    requires Members(items, key, key(x)) == [] && Members(items, key, k) != []
    ensures IsSeenBefore(k, key(x), items + [x], key)
  {
    MemberAt(items, key, key(x));
    MemberAt(items, key, k);
    var at :| 0 <= at < |items| && key(items[at]) == k;
    assert (items + [x])[at] == items[at];
    assert forall m | 0 <= m <= at :: (items + [x])[m] == items[m];
  }

  lemma GroupGrows<T, K(!new)>(groups: map<K, seq<T>>, order: seq<K>, items: seq<T>, key: T -> K, x: T)
    requires IsGrouping(groups, order, items, key) && key(x) in groups
    ensures IsGrouping(groups[key(x) := groups[key(x)] + [x]], order, items + [x], key)
  {
    GrowsMembers(groups, items, key, x);
    SightStays(order, items, key, x);
  }

  lemma GrowsMembers<T, K(!new)>(groups: map<K, seq<T>>, items: seq<T>, key: T -> K, x: T)
    requires AreMembers(groups, items, key) && key(x) in groups
    ensures AreMembers(groups[key(x) := groups[key(x)] + [x]], items + [x], key)
  {
    MembersGrow(items, key, x);
  }

  lemma StartsMembers<T, K(!new)>(groups: map<K, seq<T>>, items: seq<T>, key: T -> K, x: T)
    requires AreMembers(groups, items, key) && key(x) !in groups
    ensures AreMembers(groups[key(x) := [x]], items + [x], key)
  {
    MembersGrow(items, key, x);
    assert Members(items, key, key(x)) + [x] == [x];
  }

  lemma GroupStarts<T, K(!new)>(groups: map<K, seq<T>>, order: seq<K>, items: seq<T>, key: T -> K, x: T)
    requires IsGrouping(groups, order, items, key) && key(x) !in groups
    ensures IsGrouping(groups[key(x) := [x]], order + [key(x)], items + [x], key)
  {
    StartsMembers(groups, items, key, x);
    OrderGrows(order, key(x));
    NewIsSeenLast(order, items, key, x);
  }

  lemma OrderGrows<K(!new)>(order: seq<K>, k: K)
    requires Distinct(order) && k !in order
    ensures Distinct(order + [k]) && forall x :: x in order + [k] <==> x in order || x == k
  {
  }

  method GroupBy<T, K(!new, ==)>(items: seq<T>, key: T -> K) returns (groups: map<K, seq<T>>, order: seq<K>)
    ensures IsGrouping(groups, order, items, key)
  {
    groups, order := map[], [];
    for i := 0 to |items|
      invariant IsGrouping(groups, order, items[..i], key)
    {
      var x := items[i];
      var k := key(x);
      assert items[..i + 1] == items[..i] + [x];
      if k in groups {
        GroupGrows(groups, order, items[..i], key, x);
        groups := groups[k := groups[k] + [x]];
      } else {
        GroupStarts(groups, order, items[..i], key, x);
        groups := groups[k := [x]];
        order := order + [k];
      }
    }
    assert items[..|items|] == items;
  }

  // The groups hold every item once.
  function SumOfSizes<T, K>(groups: map<K, seq<T>>, order: seq<K>): nat
    requires forall k <- order :: k in groups
  {
    if order == [] then 0 else |groups[order[0]]| + SumOfSizes(groups, order[1..])
  }

  lemma {:induction false} SizesAfterUpdate<T, K>(groups: map<K, seq<T>>, order: seq<K>, k: K, g: seq<T>)
    requires Distinct(order) && forall x <- order :: x in groups
    requires k in groups
    ensures k in order ==> SumOfSizes(groups[k := g], order) == SumOfSizes(groups, order) - |groups[k]| + |g|
    ensures k !in order ==> SumOfSizes(groups[k := g], order) == SumOfSizes(groups, order)
  {
    if order != [] {
      assert order == [order[0]] + order[1..];
      SizesAfterUpdate(groups, order[1..], k, g);
    }
  }

  lemma {:induction false} GroupsHoldEverything<T, K(!new)>(groups: map<K, seq<T>>, order: seq<K>, items: seq<T>,
                                                     key: T -> K)
    requires Distinct(order) && (forall k <- order :: k in groups && groups[k] == Members(items, key, k))
    requires forall x <- items :: key(x) in order
    ensures SumOfSizes(groups, order) == |items|
    decreases |items|
  {
    if items == [] {
      EmptyGroups(groups, order);
    } else {
      var n := |items| - 1;
      var init, x := items[..n], items[n];
      assert items == init + [x];
      forall k: K
        ensures Members(items, key, k) == Members(init, key, k) + (if key(x) == k then [x] else [])
      {
        MembersOfAppended(init, key, x, k);
      }
      var fewer := groups[key(x) := Members(init, key, key(x))];
      forall k <- order
        ensures fewer[k] == Members(init, key, k)
      {
        assert k != key(x) ==> Members(init, key, k) + [] == Members(init, key, k);
      }
      GroupsHoldEverything(fewer, order, init, key);
      SizesAfterUpdate(groups, order, key(x), Members(init, key, key(x)));
    }
  }

  lemma {:induction false} EmptyGroups<T, K>(groups: map<K, seq<T>>, order: seq<K>)
    requires forall k <- order :: k in groups && groups[k] == []
    ensures SumOfSizes(groups, order) == 0
  {
    if order != [] {
      EmptyGroups(groups, order[1..]);
    }
  }
}

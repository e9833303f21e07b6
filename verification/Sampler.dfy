// Stratified sampling by largest remainders. Quotas are the exact rationals size * n / total, kept
// as a quotient and a remainder numerator.
module Sampler {
  import opened Arithmetic
  import opened Sequences
  import opened Sorting
  import opened Grouping

  datatype Task = Task(id: string, suite: string, difficulty: string)

  datatype Stratum = Stratum(suite: string, difficulty: string)

  const STRATUM_OF: Task -> Stratum := (t: Task) => Stratum(t.suite, t.difficulty)

  const BY_TASK_ID: (Task, Task) -> bool := (a: Task, b: Task) => StringLe(a.id, b.id)

  datatype Remainder = Remainder(key: Stratum, rem: nat)

  const LARGER_REMAINDER: (Remainder, Remainder) -> bool := (a: Remainder, b: Remainder) => a.rem >= b.rem

  // The quota of a stratum of `size` tasks among `total` is `size * n / total`: its integer part
  // and what is left over, as a numerator over `total`.
  ghost function Floor(size: nat, n: nat, total: nat): nat
    requires total > 0
  {
    Quotient(size * n, total)
  }

  ghost function Left(size: nat, n: nat, total: nat): nat
    requires total > 0
  {
    Rest(size * n, total)
  }

  function Ids(tasks: seq<Task>): (ids: seq<string>)
    ensures |ids| == |tasks|
  {
    seq(|tasks|, i requires 0 <= i < |tasks| => tasks[i].id)
  }

  function SumOf(alloc: map<Stratum, nat>, order: seq<Stratum>): nat
    requires forall k <- order :: k in alloc
  {
    if order == [] then 0 else alloc[order[0]] + SumOf(alloc, order[1..])
  }

  function SumLeft(rs: seq<Remainder>): nat {
    if rs == [] then 0 else rs[0].rem + SumLeft(rs[1..])
  }

  // -- arithmetic of quotas ----------------------------------------------------------------

  lemma QuotaParts(size: nat, n: nat, total: nat)
    requires total > 0
    ensures Floor(size, n, total) * total + Left(size, n, total) == size * n
    ensures Left(size, n, total) < total
  {
    DivisionIsExact(size * n, total);
  }

  lemma FloorIsBelowSize(size: nat, n: nat, total: nat)
    requires 0 < n < total && size > 0
    ensures Floor(size, n, total) < size
  {
    QuotaParts(size, n, total);
    Scaled(n, total, size);
    Scaled(size, Floor(size, n, total), total);
  }

  lemma {:induction false} SumLeftIsSmall(rs: seq<Remainder>, total: nat)
    requires forall r <- rs :: r.rem < total
    ensures SumLeft(rs) <= |rs| * total
  {
    if rs != [] {
      assert rs[0] in rs && forall r <- rs[1..] :: r in rs;
      SumLeftIsSmall(rs[1..], total);
      ScaledDifference(|rs| - 1, 1, total);
    }
  }

  lemma ShareFits(rs: seq<Remainder>, total: nat, d: nat)
    requires total > 0 && (forall r <- rs :: r.rem < total)
    requires SumLeft(rs) == d * total
    ensures d <= |rs|
  {
    SumLeftIsSmall(rs, total);
    Scaled(|rs|, d, total);
  }

  // Among remainders in descending order that add up to `d` wholes, the first `d` are positive.
  lemma {:induction false} TopRemaindersArePositive(rs: seq<Remainder>, total: nat, d: nat, i: nat)
    requires SortedBy(LARGER_REMAINDER, rs) && total > 0 && (forall r <- rs :: r.rem < total)
    requires SumLeft(rs) == d * total && i < d && i < |rs|
    ensures rs[i].rem > 0
  {
    SumLeftSplits(rs, i);
    assert forall r <- rs[..i] :: r in rs;
    SumLeftIsSmall(rs[..i], total);
    Scaled(i, d, total);
    assert SumLeft(rs[i..]) > 0;
    if rs[i].rem == 0 {
      assert forall j | i < j < |rs| :: LARGER_REMAINDER(rs[i], rs[j]);
      SumOfZeros(rs[i..]);
    }
  }

  lemma {:induction false} SumLeftSplits(rs: seq<Remainder>, i: nat)
    requires i <= |rs|
    ensures SumLeft(rs) == SumLeft(rs[..i]) + SumLeft(rs[i..])
  {
    if i > 0 {
      assert rs[..i][1..] == rs[1..][..i - 1] && rs[i..] == rs[1..][i - 1..];
      SumLeftSplits(rs[1..], i - 1);
    } else {
      assert rs[..0] == [] && rs[0..] == rs;
    }
  }

  lemma {:induction false} SumOfZeros(rs: seq<Remainder>)
    requires forall j | 0 <= j < |rs| :: rs[j].rem == 0
    ensures SumLeft(rs) == 0
  {
    if rs != [] {
      SumOfZeros(rs[1..]);
    }
  }

  lemma {:induction false} SumLeftOfInserted(r: Remainder, rs: seq<Remainder>)
    ensures SumLeft(Insert(LARGER_REMAINDER, r, rs)) == r.rem + SumLeft(rs)
  {
    if rs != [] && !LARGER_REMAINDER(r, rs[0]) {
      SumLeftOfInserted(r, rs[1..]);
    } else {
      assert ([r] + rs)[1..] == rs;
    }
  }

  lemma {:induction false} SumLeftOfSorted(rs: seq<Remainder>)
    ensures SumLeft(Sort(LARGER_REMAINDER, rs)) == SumLeft(rs)
  {
    if rs != [] {
      SumLeftOfSorted(rs[1..]);
      SumLeftOfInserted(rs[0], Sort(LARGER_REMAINDER, rs[1..]));
    }
  }

  // -- allocation ------------------------------------------------------------------------------

  ghost predicate IsStratification(groups: map<Stratum, seq<Task>>, order: seq<Stratum>, total: nat) {
    && Distinct(order) && (forall k :: k in order <==> k in groups)
    && (forall k <- groups :: groups[k] != [])
    && SumOfSizes(groups, order) == total
  }

  // A count that is the quota of a stratum of `size` tasks, rounded down or up.
  ghost predicate WithinQuota(count: nat, size: nat, n: nat, total: nat)
    requires total > 0
  {
    && count <= size
    && (count == Floor(size, n, total) || (count == Floor(size, n, total) + 1 && Left(size, n, total) > 0))
  }

  ghost predicate IsRoundedUp(count: nat, size: nat, n: nat, total: nat)
    requires total > 0
  {
    count > Floor(size, n, total)
  }

  // Each stratum gets its quota rounded down or up, up in the order of their remainders, so that
  // exactly `n` are handed out.
  ghost predicate IsLargestRemainder(alloc: map<Stratum, nat>, groups: map<Stratum, seq<Task>>, order: seq<Stratum>,
                                     n: nat, total: nat)
    requires total > 0 && forall k <- order :: k in groups
  {
    && alloc.Keys == (set k | k in order)
    && SumOf(alloc, order) == n
    && (forall k <- order :: WithinQuota(alloc[k], |groups[k]|, n, total))
    && (forall a, b | a in order && b in order ::
          IsRoundedUp(alloc[a], |groups[a]|, n, total) && Left(|groups[b]|, n, total) > Left(|groups[a]|, n, total) ==>
            IsRoundedUp(alloc[b], |groups[b]|, n, total))
  }

  ghost function Remainders(groups: map<Stratum, seq<Task>>, order: seq<Stratum>, n: nat, total: nat): seq<Remainder>
    requires total > 0 && forall k <- order :: k in groups
  {
    if order == [] then []
    else [Remainder(order[0], Left(|groups[order[0]]|, n, total))] + Remainders(groups, order[1..], n, total)
  }

  lemma {:induction false} RemainderAt(groups: map<Stratum, seq<Task>>, order: seq<Stratum>, n: nat, total: nat, i: nat)
    requires total > 0 && (forall k <- order :: k in groups) && i < |order|
    ensures |Remainders(groups, order, n, total)| == |order|
    ensures Remainders(groups, order, n, total)[i] == Remainder(order[i], Left(|groups[order[i]]|, n, total))
  {
    if i > 0 {
      RemainderAt(groups, order[1..], n, total, i - 1);
    } else if |order| > 1 {
      RemainderAt(groups, order[1..], n, total, 0);
    } else {
      assert order[1..] == [];
    }
  }

  lemma RemaindersAre(groups: map<Stratum, seq<Task>>, order: seq<Stratum>, n: nat, total: nat)
    requires total > 0 && forall k <- order :: k in groups
    ensures |Remainders(groups, order, n, total)| == |order|
    ensures forall r <- Remainders(groups, order, n, total) ::
              r.key in order && r.rem == Left(|groups[r.key]|, n, total) && r.rem < total
    ensures forall k <- order :: Remainder(k, Left(|groups[k]|, n, total)) in Remainders(groups, order, n, total)
    ensures forall i | 0 <= i < |order| :: Remainders(groups, order, n, total)[i].key == order[i]
  {
    var rs := Remainders(groups, order, n, total);
    forall i | 0 <= i < |order|
      ensures |rs| == |order| && rs[i] == Remainder(order[i], Left(|groups[order[i]]|, n, total)) && rs[i].rem < total
      ensures rs[i] in rs && order[i] in order
    {
      RemainderAt(groups, order, n, total, i);
      QuotaParts(|groups[order[i]]|, n, total);
    }
    assert order == [] ==> rs == [];
  }

  lemma AddParts(total: nat, one: nat, more: nat, left: nat, lefts: nat, size: nat, sizes: nat, n: nat)
    requires one * total + left == size * n && more * total + lefts == sizes * n
    ensures (one + more) * total + (left + lefts) == (size + sizes) * n
  {
    ScaledDifference(one, more, total);
    ScaledDifference(size, sizes, n);
  }

  lemma {:induction false} FloorsAndRemainders(alloc: map<Stratum, nat>, groups: map<Stratum, seq<Task>>,
                                               order: seq<Stratum>, n: nat, total: nat)
    requires total > 0
    requires forall k <- order :: k in groups && k in alloc && alloc[k] == Floor(|groups[k]|, n, total)
    ensures SumOf(alloc, order) * total + SumLeft(Remainders(groups, order, n, total)) == SumOfSizes(groups, order) * n
  {
    if order != [] {
      var size := |groups[order[0]]|;
      QuotaParts(size, n, total);
      FloorsAndRemainders(alloc, groups, order[1..], n, total);
      var rs := Remainders(groups, order[1..], n, total);
      assert Remainders(groups, order, n, total)[1..] == rs;
      AddParts(total, alloc[order[0]], SumOf(alloc, order[1..]), Left(size, n, total), SumLeft(rs),
               size, SumOfSizes(groups, order[1..]), n);
    }
  }

  // The integer parts never exceed `n`, and the remainders add up to exactly what they lack.
  lemma Deficit(alloc: map<Stratum, nat>, groups: map<Stratum, seq<Task>>, order: seq<Stratum>, n: nat, total: nat)
    returns (d: nat)
    requires total > 0 && IsStratification(groups, order, total)
    requires forall k <- order :: k in alloc && alloc[k] == Floor(|groups[k]|, n, total)
    ensures SumOf(alloc, order) + d == n
    ensures SumLeft(Remainders(groups, order, n, total)) == d * total
  {
    FloorsAndRemainders(alloc, groups, order, n, total);
    d := Lacking(SumOf(alloc, order), n, SumLeft(Remainders(groups, order, n, total)), total);
  }

  lemma Lacking(sum: nat, n: nat, left: nat, total: nat) returns (d: nat)
    requires total > 0 && sum * total + left == total * n
    ensures sum + d == n && left == d * total
  {
    Scaled(n, sum, total);
    d := n - sum;
    ScaledDifference(sum, d, total);
  }

  ghost predicate AreFloors(alloc: map<Stratum, nat>, groups: map<Stratum, seq<Task>>, order: seq<Stratum>, n: nat,
                            total: nat)
    requires total > 0
  {
    && alloc.Keys == (set k | k in order)
    && forall k <- order :: k in groups && alloc[k] == Floor(|groups[k]|, n, total)
  }

  lemma FloorsExtend(alloc: map<Stratum, nat>, groups: map<Stratum, seq<Task>>, done: seq<Stratum>, key: Stratum,
                     n: nat, total: nat)
    requires total > 0 && AreFloors(alloc, groups, done, n, total) && key in groups
    ensures AreFloors(alloc[key := Floor(|groups[key]|, n, total)], groups, done + [key], n, total)
  {
    assert forall k :: k in done + [key] <==> k in done || k == key;
  }

  method Floors(groups: map<Stratum, seq<Task>>, order: seq<Stratum>, n: nat, total: nat)
    returns (alloc: map<Stratum, nat>, remainders: seq<Remainder>)
    requires total > 0 && Distinct(order) && forall k <- order :: k in groups
    ensures AreFloors(alloc, groups, order, n, total)
    ensures remainders == Remainders(groups, order, n, total)
  {
    alloc, remainders := map[], [];
    ghost var all := Remainders(groups, order, n, total);
    assert order[0..] == order && remainders + all == all;
    for i := 0 to |order|
      invariant AreFloors(alloc, groups, order[..i], n, total)
      invariant remainders + Remainders(groups, order[i..], n, total) == all
    {
      var key := order[i];
      assert key in order && order[..i + 1] == order[..i] + [key];
      assert order[i..][1..] == order[i + 1..];
      var size := |groups[key]|;
      var base, left := size * n / total, size * n % total;
      Division(size * n, total);
      FloorsExtend(alloc, groups, order[..i], key, n, total);
      alloc := alloc[key := base];
      Associate(remainders, [Remainder(key, left)], Remainders(groups, order[i + 1..], n, total));
      remainders := remainders + [Remainder(key, left)];
    }
    assert order[..|order|] == order && remainders + [] == remainders;
  }

  method Total(alloc: map<Stratum, nat>, order: seq<Stratum>) returns (sum: nat)
    requires forall k <- order :: k in alloc
    ensures sum == SumOf(alloc, order)
  {
    sum := 0;
    assert order[0..] == order;
    for i := 0 to |order|
      invariant sum + SumOf(alloc, order[i..]) == SumOf(alloc, order)
    {
      assert order[i..][1..] == order[i + 1..];
      sum := sum + alloc[order[i]];
    }
  }

  lemma {:induction false} SumAfterIncrement(alloc: map<Stratum, nat>, order: seq<Stratum>, k: Stratum)
    requires Distinct(order) && (forall x <- order :: x in alloc) && k in alloc
    ensures SumOf(alloc[k := alloc[k] + 1], order) == SumOf(alloc, order) + (if k in order then 1 else 0)
  {
    if order != [] {
      assert order == [order[0]] + order[1..];
      SumAfterIncrement(alloc, order[1..], k);
    }
  }

  // The keys of the first `i` of `rs`.
  function KeysUpTo(rs: seq<Remainder>, i: nat): set<Stratum>
    requires i <= |rs|
  {
    set j | 0 <= j < i :: rs[j].key
  }

  lemma {:induction false} RemaindersAreDistinct(groups: map<Stratum, seq<Task>>, order: seq<Stratum>, n: nat,
                                                 total: nat)
    requires total > 0 && Distinct(order) && forall k <- order :: k in groups
    ensures Distinct(Remainders(groups, order, n, total))
  {
    RemaindersAre(groups, order, n, total);
  }

  ghost predicate IsRanking(sorted: seq<Remainder>, groups: map<Stratum, seq<Task>>, order: seq<Stratum>, n: nat,
                            total: nat)
    requires total > 0 && forall k <- order :: k in groups
  {
    && SortedBy(LARGER_REMAINDER, sorted)
    && (forall i, j | 0 <= i < j < |sorted| :: sorted[i].key != sorted[j].key)
    && (forall r <- sorted :: r.key in order && r.rem == Left(|groups[r.key]|, n, total))
    && (forall k <- order :: Remainder(k, Left(|groups[k]|, n, total)) in sorted)
  }

  lemma SortedRemaindersRank(groups: map<Stratum, seq<Task>>, order: seq<Stratum>, n: nat, total: nat)
    requires total > 0 && Distinct(order) && forall k <- order :: k in groups
    ensures IsRanking(Sort(LARGER_REMAINDER, Remainders(groups, order, n, total)), groups, order, n, total)
  {
    var rs := Remainders(groups, order, n, total);
    var sorted := Sort(LARGER_REMAINDER, rs);
    RemaindersAre(groups, order, n, total);
    RemaindersAreDistinct(groups, order, n, total);
    SortSorts(LARGER_REMAINDER, rs);
    SortKeepsElements(LARGER_REMAINDER, rs);
    DistinctPermutes(sorted, rs);
    forall i, j | 0 <= i < j < |sorted|
      ensures sorted[i].key != sorted[j].key
    {
      assert sorted[i] in rs && sorted[j] in rs;
    }
  }

  ghost predicate FirstAreRoundedUp(alloc: map<Stratum, nat>, sorted: seq<Remainder>, d: nat,
                                    groups: map<Stratum, seq<Task>>, order: seq<Stratum>, n: nat, total: nat)
    requires total > 0 && forall k <- order :: k in groups
  {
    && d <= |sorted|
    && alloc.Keys == (set k | k in order)
    && (forall k <- order :: alloc[k] == Floor(|groups[k]|, n, total) + (if k in KeysUpTo(sorted, d) then 1 else 0))
  }

  lemma RoundedUpIsWithinSize(alloc: map<Stratum, nat>, groups: map<Stratum, seq<Task>>, order: seq<Stratum>, n: nat,
                              total: nat, sorted: seq<Remainder>, d: nat)
    requires 0 < n < total && IsStratification(groups, order, total)
    requires IsRanking(sorted, groups, order, n, total) && d <= |sorted| && (forall i | 0 <= i < d :: sorted[i].rem > 0)
    requires FirstAreRoundedUp(alloc, sorted, d, groups, order, n, total)
    ensures forall k <- order :: WithinQuota(alloc[k], |groups[k]|, n, total)
  {
    forall k <- order
      ensures k in KeysUpTo(sorted, d) ==> Left(|groups[k]|, n, total) > 0
      ensures alloc[k] <= |groups[k]|
    {
      FloorIsBelowSize(|groups[k]|, n, total);
      if k in KeysUpTo(sorted, d) {
        var j :| 0 <= j < d && sorted[j].key == k;
        assert sorted[j] in sorted;
      }
    }
  }

  lemma LargerRemaindersGoFirst(groups: map<Stratum, seq<Task>>, order: seq<Stratum>, n: nat, total: nat,
                                sorted: seq<Remainder>, d: nat, a: Stratum, b: Stratum)
    requires total > 0 && forall k <- order :: k in groups
    requires IsRanking(sorted, groups, order, n, total) && d <= |sorted|
    requires a in order && b in order && a in KeysUpTo(sorted, d)
    requires Left(|groups[b]|, n, total) > Left(|groups[a]|, n, total)
    ensures b in KeysUpTo(sorted, d)
  {
    var i :| 0 <= i < d && sorted[i].key == a;
    assert sorted[i] in sorted;
    var j :| 0 <= j < |sorted| && sorted[j] == Remainder(b, Left(|groups[b]|, n, total));
    assert forall x, y | 0 <= x < y < |sorted| :: LARGER_REMAINDER(sorted[x], sorted[y]);
    assert j < i;
    assert sorted[j].key == b;
  }

  lemma RoundedUpInOrder(alloc: map<Stratum, nat>, groups: map<Stratum, seq<Task>>, order: seq<Stratum>, n: nat,
                         total: nat, sorted: seq<Remainder>, d: nat)
    requires 0 < n < total && IsStratification(groups, order, total)
    requires IsRanking(sorted, groups, order, n, total) && d <= |sorted| && (forall i | 0 <= i < d :: sorted[i].rem > 0)
    requires FirstAreRoundedUp(alloc, sorted, d, groups, order, n, total)
    requires SumOf(alloc, order) == n
    ensures IsLargestRemainder(alloc, groups, order, n, total)
  {
    RoundedUpIsWithinSize(alloc, groups, order, n, total, sorted, d);
    forall a, b | a in order && b in order && IsRoundedUp(alloc[a], |groups[a]|, n, total)
                  && Left(|groups[b]|, n, total) > Left(|groups[a]|, n, total)
      ensures b in KeysUpTo(sorted, d)
    {
      LargerRemaindersGoFirst(groups, order, n, total, sorted, d, a, b);
    }
  }

  // `floors`, with one more for each of the first `i` strata of the ranking.
  ghost predicate IsAlong(alloc: map<Stratum, nat>, floors: map<Stratum, nat>, sorted: seq<Remainder>, i: nat) {
    && i <= |sorted|
    && alloc.Keys == floors.Keys
    && (forall k <- floors :: alloc[k] == floors[k] + (if k in KeysUpTo(sorted, i) then 1 else 0))
  }

  // Every stratum has room for one more, and is ranked once.
  ghost predicate HaveRoom(floors: map<Stratum, nat>, groups: map<Stratum, seq<Task>>, sorted: seq<Remainder>) {
    && (forall k <- floors :: k in groups && floors[k] < |groups[k]|)
    && (forall r <- sorted :: r.key in floors)
    && (forall i, j | 0 <= i < j < |sorted| :: sorted[i].key != sorted[j].key)
  }

  // The next stratum of the ranking has not been rounded up yet.
  lemma NextIsRoundedUp(alloc: map<Stratum, nat>, floors: map<Stratum, nat>, groups: map<Stratum, seq<Task>>,
                        order: seq<Stratum>, sorted: seq<Remainder>, i: nat)
    requires HaveRoom(floors, groups, sorted) && IsAlong(alloc, floors, sorted, i) && i < |sorted|
    requires Distinct(order) && forall k :: k in order <==> k in floors
    ensures var key := sorted[i].key;
            && key in alloc && key in groups && alloc[key] < |groups[key]|
            && IsAlong(alloc[key := alloc[key] + 1], floors, sorted, i + 1)
            && SumOf(alloc[key := alloc[key] + 1], order) == SumOf(alloc, order) + 1
  {
    var key := sorted[i].key;
    assert sorted[i] in sorted;
    assert key !in KeysUpTo(sorted, i);
    SumAfterIncrement(alloc, order, key);
    KeysGrow(sorted, i);
  }

  // One more to each stratum along the remainders until `n` are handed out.
  method RoundUp(floors: map<Stratum, nat>, groups: map<Stratum, seq<Task>>, ghost order: seq<Stratum>, n: nat,
                 sorted: seq<Remainder>, base: nat, ghost d: nat)
    returns (alloc: map<Stratum, nat>, given: nat)
    requires HaveRoom(floors, groups, sorted)
    requires Distinct(order) && forall k :: k in order <==> k in floors
    requires base == SumOf(floors, order) && base + d == n && d <= |sorted|
    ensures IsAlong(alloc, floors, sorted, d)
    ensures given == SumOf(alloc, order) == n
  {
    alloc, given := floors, base;
    var i := 0;
    while i < |sorted|
      invariant i <= d
      invariant IsAlong(alloc, floors, sorted, i)
      invariant given == SumOf(alloc, order) == base + i
    {
      if given >= n { break; }
      var key := sorted[i].key;
      NextIsRoundedUp(alloc, floors, groups, order, sorted, i);
      if alloc[key] < |groups[key]| {
        alloc := alloc[key := alloc[key] + 1];
        given := given + 1;
      }
      i := i + 1;
    }
  }

  lemma FloorsHaveRoom(floors: map<Stratum, nat>, groups: map<Stratum, seq<Task>>, order: seq<Stratum>, n: nat,
                       total: nat, sorted: seq<Remainder>)
    requires 0 < n < total && IsStratification(groups, order, total) && AreFloors(floors, groups, order, n, total)
    requires IsRanking(sorted, groups, order, n, total)
    ensures HaveRoom(floors, groups, sorted)
  {
    forall k <- floors
      ensures k in groups && floors[k] < |groups[k]|
    {
      FloorIsBelowSize(|groups[k]|, n, total);
    }
  }

  lemma AlongIsRoundedUp(alloc: map<Stratum, nat>, floors: map<Stratum, nat>, groups: map<Stratum, seq<Task>>,
                         order: seq<Stratum>, n: nat, total: nat, sorted: seq<Remainder>, d: nat)
    requires total > 0 && AreFloors(floors, groups, order, n, total) && IsAlong(alloc, floors, sorted, d)
    ensures FirstAreRoundedUp(alloc, sorted, d, groups, order, n, total)
  {
    assert forall k <- order :: k in floors;
  }

  lemma KeysGrow(rs: seq<Remainder>, i: nat)
    requires i < |rs|
    ensures KeysUpTo(rs, i + 1) == KeysUpTo(rs, i) + {rs[i].key}
  {
    forall k <- KeysUpTo(rs, i) + {rs[i].key}
      ensures k in KeysUpTo(rs, i + 1)
    {
      if k != rs[i].key {
        var j :| 0 <= j < i && rs[j].key == k;
      }
    }
  }

  method Allocate(groups: map<Stratum, seq<Task>>, order: seq<Stratum>, n: nat, total: nat)
    returns (alloc: map<Stratum, nat>, ghost d: nat)
    requires 0 < n < total && IsStratification(groups, order, total)
    ensures IsLargestRemainder(alloc, groups, order, n, total)
    ensures FirstAreRoundedUp(alloc, Sort(LARGER_REMAINDER, Remainders(groups, order, n, total)), d,
                              groups, order, n, total)
  {
    var floors, remainders := Floors(groups, order, n, total);
    var given := Total(floors, order);
    d := Deficit(floors, groups, order, n, total);
    ghost var ranked := Sort(LARGER_REMAINDER, remainders);
    SortedRemaindersRank(groups, order, n, total);
    TopRemainders(groups, order, n, total, d);
    FloorsHaveRoom(floors, groups, order, n, total, ranked);
    alloc := floors;
    assert IsAlong(alloc, floors, ranked, 0) by {
      assert KeysUpTo(ranked, 0) == {};
    }
    if given < n {
      remainders := Sort(LARGER_REMAINDER, remainders);
      alloc, given := RoundUp(floors, groups, order, n, remainders, given, d);
    }
    // The source's second loop, which would take back what was handed out beyond `n`.
    if given > n {
      assert false;
    }
    AlongIsRoundedUp(alloc, floors, groups, order, n, total, ranked, d);
    RoundedUpInOrder(alloc, groups, order, n, total, ranked, d);
  }

  // As many remainders as are lacking exist and are positive.
  lemma TopRemainders(groups: map<Stratum, seq<Task>>, order: seq<Stratum>, n: nat, total: nat, d: nat)
    requires total > 0 && forall k <- order :: k in groups
    requires SumLeft(Remainders(groups, order, n, total)) == d * total
    ensures var ranked := Sort(LARGER_REMAINDER, Remainders(groups, order, n, total));
            d <= |ranked| && forall i | 0 <= i < d :: ranked[i].rem > 0
  {
    var rs := Remainders(groups, order, n, total);
    var ranked := Sort(LARGER_REMAINDER, rs);
    RemaindersAre(groups, order, n, total);
    SortKeepsElements(LARGER_REMAINDER, rs);
    SortSorts(LARGER_REMAINDER, rs);
    SumLeftOfSorted(rs);
    ShareFits(ranked, total, d);
    forall i | 0 <= i < d
      ensures ranked[i].rem > 0
    {
      TopRemaindersArePositive(ranked, total, d, i);
    }
  }

  // -- the sample --------------------------------------------------------------------------

  // The first `count` members of a stratum in the order of their ids.
  function Drawn(members: seq<Task>, count: nat): seq<Task> {
    var sorted := Sort(BY_TASK_ID, members);
    if count <= |sorted| then sorted[..count] else sorted
  }

  function Picks(alloc: map<Stratum, nat>, groups: map<Stratum, seq<Task>>, order: seq<Stratum>): seq<Task>
    requires forall k <- order :: k in groups && k in alloc
  {
    if order == [] then [] else Drawn(groups[order[0]], alloc[order[0]]) + Picks(alloc, groups, order[1..])
  }

  // How a sample came about: the strata in order, what each was given, and how many were rounded up.
  datatype Plan = Plan(groups: map<Stratum, seq<Task>>, order: seq<Stratum>, alloc: map<Stratum, nat>, roundedUp: nat)

  ghost predicate IsPlan(plan: Plan, tasks: seq<Task>, n: nat) {
    && 0 < n < |tasks|
    && IsGrouping(plan.groups, plan.order, tasks, STRATUM_OF)
    && IsLargestRemainder(plan.alloc, plan.groups, plan.order, n, |tasks|)
    && FirstAreRoundedUp(plan.alloc, Sort(LARGER_REMAINDER, Remainders(plan.groups, plan.order, n, |tasks|)),
                         plan.roundedUp, plan.groups, plan.order, n, |tasks|)
  }

  ghost predicate Explains(plan: Plan, tasks: seq<Task>, n: nat, sample: seq<string>) {
    IsPlan(plan, tasks, n) && sample == Sort(StringLe, Ids(Picks(plan.alloc, plan.groups, plan.order)))
  }

  lemma StrataAre(tasks: seq<Task>, groups: map<Stratum, seq<Task>>, order: seq<Stratum>)
    requires IsGrouping(groups, order, tasks, STRATUM_OF)
    ensures IsStratification(groups, order, |tasks|)
  {
    forall t <- tasks
      ensures STRATUM_OF(t) in order
    {
      MembersAre(tasks, STRATUM_OF, STRATUM_OF(t));
      assert t in Members(tasks, STRATUM_OF, STRATUM_OF(t));
    }
    GroupsHoldEverything(groups, order, tasks, STRATUM_OF);
  }

  method Pick(alloc: map<Stratum, nat>, groups: map<Stratum, seq<Task>>, order: seq<Stratum>) returns (ids: seq<string>)
    requires forall k <- order :: k in groups && k in alloc
    ensures ids == Ids(Picks(alloc, groups, order))
  {
    var selected := [];
    ghost var all := Picks(alloc, groups, order);
    assert order[0..] == order && selected + all == all;
    for i := 0 to |order|
      invariant selected + Picks(alloc, groups, order[i..]) == all
    {
      assert order[i..][1..] == order[i + 1..];
      var members := Sort(BY_TASK_ID, groups[order[i]]);
      var count := alloc[order[i]];
      var drawn := if count <= |members| then members[..count] else members;
      Associate(selected, drawn, Picks(alloc, groups, order[i + 1..]));
      selected := selected + drawn;
    }
    assert selected + [] == selected;
    ids := Ids(selected);
  }

  method SelectStratifiedSample(tasks: seq<Task>, n: int) returns (sample: seq<string>, ghost plan: Plan)
    ensures n <= 0 ==> sample == []
    ensures n > 0 && n >= |tasks| ==> |sample| == |tasks| && forall i | 0 <= i < |tasks| :: sample[i] == tasks[i].id
    ensures 0 < n < |tasks| ==> Explains(plan, tasks, n, sample)
  {
    plan := Plan(map[], [], map[], 0);
    if n <= 0 { return [], plan; }
    if n >= |tasks| { return Ids(tasks), plan; }
    var groups, order := GroupBy(tasks, STRATUM_OF);
    StrataAre(tasks, groups, order);
    var alloc; ghost var d;
    alloc, d := Allocate(groups, order, n, |tasks|);
    var selected := Pick(alloc, groups, order);
    sample := Sort(StringLe, selected);
    plan := Plan(groups, order, alloc, d);
  }
}

// The shares of a sample in plain numbers: how many tasks of a suite and a difficulty it names.
module SampleShares {
  import opened Arithmetic
  import opened Sorting
  import opened Grouping
  import opened Sampler
  import opened SamplerLaws

  function OfStratum(tasks: seq<Task>, suite: string, difficulty: string): set<Task> {
    set t | t in tasks && t.suite == suite && t.difficulty == difficulty
  }

  function NamedOf(tasks: seq<Task>, sample: seq<string>, suite: string, difficulty: string): set<Task> {
    set t | t in tasks && t.suite == suite && t.difficulty == difficulty && t.id in sample
  }

  lemma DistinctTasks(tasks: seq<Task>)
    requires IdsAreDistinct(tasks)
    ensures Sequences.Distinct(tasks)
  {
  }

  lemma MembersAreOfStratum(tasks: seq<Task>, suite: string, difficulty: string)
    requires IdsAreDistinct(tasks)
    ensures |Members(tasks, STRATUM_OF, Stratum(suite, difficulty))| == |OfStratum(tasks, suite, difficulty)|
  {
    var k := Stratum(suite, difficulty);
    DistinctTasks(tasks);
    MembersKeepDistinct(tasks, STRATUM_OF, k);
    MembersAre(tasks, STRATUM_OF, k);
    Sequences.SizeOfDistinct(Members(tasks, STRATUM_OF, k));
    assert OfStratum(tasks, suite, difficulty) == set t | t in Members(tasks, STRATUM_OF, k);
  }

  lemma NamedAreSampled(tasks: seq<Task>, sample: seq<string>, suite: string, difficulty: string)
    ensures NamedOf(tasks, sample, suite, difficulty) == Sampled(tasks, sample, Stratum(suite, difficulty))
  {
  }

  lemma QuotaInNumbers(count: nat, size: nat, n: nat, total: nat)
    requires total > 0 && WithinQuota(count, size, n, total)
    ensures count <= size
    ensures count == size * n / total || (count == size * n / total + 1 && size * n % total > 0)
  {
    Division(size * n, total);
  }

  // Of the `size` tasks of a suite and a difficulty the sample names size * n / total, rounded down, or one
  // more if that is no whole number.
  lemma SharesAreProportional(plan: Plan, tasks: seq<Task>, n: nat, sample: seq<string>, suite: string,
                              difficulty: string)
    requires Explains(plan, tasks, n, sample) && IdsAreDistinct(tasks)
    ensures var share := |OfStratum(tasks, suite, difficulty)| * n;
            var named := |NamedOf(tasks, sample, suite, difficulty)|;
            && named <= |OfStratum(tasks, suite, difficulty)|
            && (named == share / |tasks| || (named == share / |tasks| + 1 && share % |tasks| > 0))
  {
    MembersAreOfStratum(tasks, suite, difficulty);
    NamedAreSampled(tasks, sample, suite, difficulty);
    SampleIsProportional(plan, tasks, n, sample, Stratum(suite, difficulty));
    QuotaInNumbers(|NamedOf(tasks, sample, suite, difficulty)|, |OfStratum(tasks, suite, difficulty)|, n, |tasks|);
  }

  // The sample names one more than the rounded share of its tasks.
  ghost predicate IsRaised(tasks: seq<Task>, n: nat, sample: seq<string>, k: Stratum)
    requires tasks != []
  {
    |NamedOf(tasks, sample, k.suite, k.difficulty)| > |OfStratum(tasks, k.suite, k.difficulty)| * n / |tasks|
  }

  ghost function Remaining(tasks: seq<Task>, n: nat, k: Stratum): nat
    requires tasks != []
  {
    |OfStratum(tasks, k.suite, k.difficulty)| * n % |tasks|
  }

  lemma RaisedIsRoundedUp(tasks: seq<Task>, n: nat, sample: seq<string>, k: Stratum)
    requires tasks != [] && IdsAreDistinct(tasks)
    ensures IsRaised(tasks, n, sample, k) <==>
            IsRoundedUp(|Sampled(tasks, sample, k)|, |Members(tasks, STRATUM_OF, k)|, n, |tasks|)
    ensures Remaining(tasks, n, k) == Left(|Members(tasks, STRATUM_OF, k)|, n, |tasks|)
  {
    assert k == Stratum(k.suite, k.difficulty);
    MembersAreOfStratum(tasks, k.suite, k.difficulty);
    NamedAreSampled(tasks, sample, k.suite, k.difficulty);
    Division(|OfStratum(tasks, k.suite, k.difficulty)| * n, |tasks|);
  }

  // -- ties --------------------------------------------------------------------------------

  // Some task of `a` comes before every task of `b`.
  ghost predicate ComesBefore(tasks: seq<Task>, a: Stratum, b: Stratum) {
    exists i | 0 <= i < |tasks| ::
      && tasks[i].suite == a.suite && tasks[i].difficulty == a.difficulty
      && forall j | 0 <= j <= i :: tasks[j].suite != b.suite || tasks[j].difficulty != b.difficulty
  }

  lemma SightIsOneWay<T, K>(a: K, b: K, items: seq<T>, key: T -> K)
    requires IsSeenBefore(a, b, items, key)
    ensures !IsSeenBefore(b, a, items, key)
  {
    var i :| 0 <= i < |items| && key(items[i]) == a && forall m | 0 <= m <= i :: key(items[m]) != b;
    assert forall j | 0 <= j < |items| && key(items[j]) == b :: i < j;
  }

  lemma SeenFirstIsListedFirst(plan: Plan, tasks: seq<Task>, n: nat, a: Stratum, b: Stratum) returns (i: nat, j: nat)
    requires IsPlan(plan, tasks, n) && ComesBefore(tasks, a, b) && a in plan.order && b in plan.order
    ensures i < j < |plan.order| && plan.order[i] == a && plan.order[j] == b
  {
    i :| 0 <= i < |plan.order| && plan.order[i] == a;
    j :| 0 <= j < |plan.order| && plan.order[j] == b;
    ComesBeforeIsSeenBefore(tasks, a, b);
    SightIsOneWay(a, b, tasks, STRATUM_OF);
    assert i > j ==> IsSeenBefore(b, a, tasks, STRATUM_OF);
  }

  lemma ComesBeforeIsSeenBefore(tasks: seq<Task>, a: Stratum, b: Stratum)
    requires ComesBefore(tasks, a, b)
    ensures IsSeenBefore(a, b, tasks, STRATUM_OF) && a != b
  {
    var i :| 0 <= i < |tasks| && STRATUM_OF(tasks[i]) == a && forall j | 0 <= j <= i :: STRATUM_OF(tasks[j]) != b;
  }

  lemma TieIsRankedInOrder(plan: Plan, tasks: seq<Task>, n: nat, a: Stratum, b: Stratum, i: nat, j: nat)
    requires IsPlan(plan, tasks, n) && i < j < |plan.order| && plan.order[i] == a && plan.order[j] == b
    requires Left(|plan.groups[a]|, n, |tasks|) == Left(|plan.groups[b]|, n, |tasks|)
    ensures var rs := Remainders(plan.groups, plan.order, n, |tasks|);
            var r := Remainder(a, Left(|plan.groups[a]|, n, |tasks|));
            var s := Remainder(b, Left(|plan.groups[b]|, n, |tasks|));
            IsBefore(r, s, Sort(LARGER_REMAINDER, rs))
  {
    var rs := Remainders(plan.groups, plan.order, n, |tasks|);
    RemainderAt(plan.groups, plan.order, n, |tasks|, i);
    RemainderAt(plan.groups, plan.order, n, |tasks|, j);
    SortIsStable(LARGER_REMAINDER, rs, rs[i], rs[j]);
  }

  lemma EarlierIsRoundedUpToo(ranked: seq<Remainder>, d: nat, r: Remainder, s: Remainder)
    requires d <= |ranked| && IsBefore(r, s, ranked) && s.key in KeysUpTo(ranked, d)
    requires forall i, j | 0 <= i < j < |ranked| :: ranked[i].key != ranked[j].key
    ensures r.key in KeysUpTo(ranked, d)
  {
    var i, j :| 0 <= i < j < |ranked| && ranked[i] == r && ranked[j] == s;
    var k :| 0 <= k < d && ranked[k].key == s.key;
    assert k == j;
  }

  // Strata with larger remainders are raised first, and of two with the same remainder the one whose tasks
  // come first.
  lemma RaisedInOrder(plan: Plan, tasks: seq<Task>, n: nat, sample: seq<string>, a: Stratum, b: Stratum)
    requires Explains(plan, tasks, n, sample) && IdsAreDistinct(tasks)
    requires IsRaised(tasks, n, sample, b)
    requires var x, y := Remaining(tasks, n, a), Remaining(tasks, n, b);
             x > y || (x == y && ComesBefore(tasks, a, b))
    ensures IsRaised(tasks, n, sample, a)
  {
    RaisedIsRoundedUp(tasks, n, sample, a);
    RaisedIsRoundedUp(tasks, n, sample, b);
    if Remaining(tasks, n, a) > Remaining(tasks, n, b) {
      LargerRemaindersAreServedFirst(plan, tasks, n, sample, b, a);
    } else {
      TiesGoInOrder(plan, tasks, n, sample, a, b);
    }
  }

  lemma TiesGoInOrder(plan: Plan, tasks: seq<Task>, n: nat, sample: seq<string>, a: Stratum, b: Stratum)
    requires Explains(plan, tasks, n, sample) && IdsAreDistinct(tasks) && ComesBefore(tasks, a, b)
    requires Left(|Members(tasks, STRATUM_OF, a)|, n, |tasks|) == Left(|Members(tasks, STRATUM_OF, b)|, n, |tasks|)
    requires IsRoundedUp(|Sampled(tasks, sample, b)|, |Members(tasks, STRATUM_OF, b)|, n, |tasks|)
    ensures IsRoundedUp(|Sampled(tasks, sample, a)|, |Members(tasks, STRATUM_OF, a)|, n, |tasks|)
  {
    CountsAreTheAllocation(plan, tasks, n, sample);
    QuotaOfNothing(n, |tasks|);
    assert b in plan.order;
    ComesBeforeIsListed(plan, tasks, n, a, b);
    var i, j := SeenFirstIsListedFirst(plan, tasks, n, a, b);
    TieIsRankedInOrder(plan, tasks, n, a, b, i, j);
    var ranked := Sort(LARGER_REMAINDER, Remainders(plan.groups, plan.order, n, |tasks|));
    SortedRemaindersRank(plan.groups, plan.order, n, |tasks|);
    EarlierIsRoundedUpToo(ranked, plan.roundedUp, Remainder(a, Left(|plan.groups[a]|, n, |tasks|)),
                          Remainder(b, Left(|plan.groups[b]|, n, |tasks|)));
  }

  lemma ComesBeforeIsListed(plan: Plan, tasks: seq<Task>, n: nat, a: Stratum, b: Stratum)
    requires IsPlan(plan, tasks, n) && ComesBefore(tasks, a, b)
    ensures a in plan.order
  {
    var i :| 0 <= i < |tasks| && STRATUM_OF(tasks[i]) == a;
    MembersAre(tasks, STRATUM_OF, a);
    assert tasks[i] in Members(tasks, STRATUM_OF, a);
  }
}

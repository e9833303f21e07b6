// What a stratified sample is: exact, without repetition, and proportional stratum by stratum.
module SamplerLaws {
  import opened Sequences
  import opened Sorting
  import opened Grouping
  import opened Sampler

  lemma ByTaskIdIsPreorder()
    ensures IsPreorder(BY_TASK_ID)
  {
    StringLeIsPreorder();
    assert forall a, b :: BY_TASK_ID(a, b) <==> StringLe(a.id, b.id);
  }

  lemma DrawnAre(members: seq<Task>, count: nat)
    requires count <= |members|
    ensures |Drawn(members, count)| == count
    ensures forall t <- Drawn(members, count) :: t in members
    ensures Distinct(members) ==> Distinct(Drawn(members, count))
  {
    SortKeepsElements(BY_TASK_ID, members);
    var sorted := Sort(BY_TASK_ID, members);
    assert forall t <- sorted[..count] :: t in sorted;
    if Distinct(members) {
      DistinctPermutes(sorted, members);
    }
  }

  lemma {:induction false} PicksAre(alloc: map<Stratum, nat>, groups: map<Stratum, seq<Task>>, order: seq<Stratum>)
    requires forall k <- order :: k in groups && k in alloc && alloc[k] <= |groups[k]|
    ensures |Picks(alloc, groups, order)| == SumOf(alloc, order)
    ensures forall t :: t in Picks(alloc, groups, order) <==> exists k <- order :: t in Drawn(groups[k], alloc[k])
  {
    if order != [] {
      DrawnAre(groups[order[0]], alloc[order[0]]);
      PicksAre(alloc, groups, order[1..]);
      assert order == [order[0]] + order[1..];
    }
  }

  lemma {:induction false} PicksAreDistinct(alloc: map<Stratum, nat>, groups: map<Stratum, seq<Task>>,
                                            order: seq<Stratum>)
    requires Distinct(order)
    requires forall k <- order :: k in groups && k in alloc && alloc[k] <= |groups[k]| && Distinct(groups[k])
    requires forall k <- order, t <- groups[k] :: STRATUM_OF(t) == k
    ensures Distinct(Picks(alloc, groups, order))
  {
    if order != [] {
      var k, rest := order[0], order[1..];
      assert order == [k] + rest;
      DrawnAre(groups[k], alloc[k]);
      PicksAreDistinct(alloc, groups, rest);
      PicksAre(alloc, groups, rest);
      forall t | t in Picks(alloc, groups, rest)
        ensures STRATUM_OF(t) != k
      {
        var j :| j in rest && t in Drawn(groups[j], alloc[j]);
        DrawnAre(groups[j], alloc[j]);
      }
      DistinctConcat(Drawn(groups[k], alloc[k]), Picks(alloc, groups, rest));
    }
  }

  ghost predicate IdsAreDistinct(tasks: seq<Task>) {
    forall i, j | 0 <= i < j < |tasks| :: tasks[i].id != tasks[j].id
  }

  lemma IdNamesOneTask(tasks: seq<Task>, t: Task, u: Task)
    requires IdsAreDistinct(tasks) && t in tasks && u in tasks && t.id == u.id
    ensures t == u
  {
  }

  // The tasks of stratum `k` that a sample names.
  function Sampled(tasks: seq<Task>, sample: seq<string>, k: Stratum): set<Task> {
    set t | t in tasks && STRATUM_OF(t) == k && t.id in sample
  }

  lemma PickedFromTheirStratum(tasks: seq<Task>, alloc: map<Stratum, nat>, groups: map<Stratum, seq<Task>>,
                               order: seq<Stratum>)
    requires IsGrouping(groups, order, tasks, STRATUM_OF)
    requires forall k <- order :: k in alloc && alloc[k] <= |groups[k]|
    ensures forall t <- Picks(alloc, groups, order) ::
              t in tasks && STRATUM_OF(t) in order && t in Drawn(groups[STRATUM_OF(t)], alloc[STRATUM_OF(t)])
  {
    PicksAre(alloc, groups, order);
    forall t <- Picks(alloc, groups, order)
      ensures t in tasks && STRATUM_OF(t) in order && t in Drawn(groups[STRATUM_OF(t)], alloc[STRATUM_OF(t)])
    {
      var k :| k in order && t in Drawn(groups[k], alloc[k]);
      DrawnAre(groups[k], alloc[k]);
      MembersAre(tasks, STRATUM_OF, k);
    }
  }

  lemma {:induction false} IdsComeFromTasks(picks: seq<Task>, sample: seq<string>)
    requires sample == Sort(StringLe, Ids(picks))
    ensures |sample| == |picks| && SortedBy(StringLe, sample)
    ensures forall id <- sample :: exists t <- picks :: t.id == id
    ensures Distinct(Ids(picks)) ==> Distinct(sample)
  {
    SortKeepsElements(StringLe, Ids(picks));
    StringLeIsPreorder();
    SortSorts(StringLe, Ids(picks));
    forall id <- sample
      ensures exists t <- picks :: t.id == id
    {
      assert id in Ids(picks);
      var i :| 0 <= i < |picks| && Ids(picks)[i] == id;
      assert picks[i] in picks;
    }
    if Distinct(Ids(picks)) {
      DistinctPermutes(sample, Ids(picks));
    }
  }

  // For 0 < n < |tasks| the sample names exactly `n` tasks, in order, none of them twice.
  lemma SampleIsExact(plan: Plan, tasks: seq<Task>, n: nat, sample: seq<string>)
    requires Explains(plan, tasks, n, sample)
    ensures |sample| == n && SortedBy(StringLe, sample)
    ensures forall id <- sample :: exists t <- tasks :: t.id == id
    ensures IdsAreDistinct(tasks) ==> Distinct(sample)
  {
    var alloc, groups, order := plan.alloc, plan.groups, plan.order;
    PicksAre(alloc, groups, order);
    PickedFromTheirStratum(tasks, alloc, groups, order);
    IdsComeFromTasks(Picks(alloc, groups, order), sample);
    if IdsAreDistinct(tasks) {
      SampleIsDistinct(tasks, alloc, groups, order);
    }
  }

  lemma SampleIsDistinct(tasks: seq<Task>, alloc: map<Stratum, nat>, groups: map<Stratum, seq<Task>>,
                         order: seq<Stratum>)
    requires IsGrouping(groups, order, tasks, STRATUM_OF) && IdsAreDistinct(tasks)
    requires forall k <- order :: k in alloc && alloc[k] <= |groups[k]|
    ensures Distinct(Ids(Picks(alloc, groups, order)))
  {
    forall k <- order
      ensures Distinct(groups[k])
      ensures forall t <- groups[k] :: STRATUM_OF(t) == k
    {
      MembersKeepDistinct(tasks, STRATUM_OF, k);
      MembersAre(tasks, STRATUM_OF, k);
    }
    PicksAreDistinct(alloc, groups, order);
    PickedFromTheirStratum(tasks, alloc, groups, order);
    var picks := Picks(alloc, groups, order);
    forall i, j | 0 <= i < j < |picks|
      ensures picks[i].id != picks[j].id
    {
      if picks[i].id == picks[j].id {
        IdNamesOneTask(tasks, picks[i], picks[j]);
      }
    }
  }

  lemma PickedAreNamed(picks: seq<Task>, sample: seq<string>, t: Task)
    requires sample == Sort(StringLe, Ids(picks)) && t in picks
    ensures t.id in sample
  {
    SortKeepsElements(StringLe, Ids(picks));
    var i :| 0 <= i < |picks| && picks[i] == t;
    assert Ids(picks)[i] == t.id;
  }

  lemma NamedArePicked(tasks: seq<Task>, picks: seq<Task>, sample: seq<string>, t: Task)
    requires IdsAreDistinct(tasks) && (forall p <- picks :: p in tasks)
    requires sample == Sort(StringLe, Ids(picks)) && t in tasks && t.id in sample
    ensures t in picks
  {
    SortKeepsElements(StringLe, Ids(picks));
    var i :| 0 <= i < |picks| && Ids(picks)[i] == t.id;
    IdNamesOneTask(tasks, t, picks[i]);
  }

  lemma SampledAreDrawn(tasks: seq<Task>, sample: seq<string>,
                        alloc: map<Stratum, nat>, groups: map<Stratum, seq<Task>>, order: seq<Stratum>, k: Stratum)
    requires IsGrouping(groups, order, tasks, STRATUM_OF) && IdsAreDistinct(tasks) && k in order
    requires forall k <- order :: k in alloc && alloc[k] <= |groups[k]|
    requires sample == Sort(StringLe, Ids(Picks(alloc, groups, order)))
    ensures Sampled(tasks, sample, k) == (set t | t in Drawn(groups[k], alloc[k]))
  {
    var picks := Picks(alloc, groups, order);
    PicksAre(alloc, groups, order);
    PickedFromTheirStratum(tasks, alloc, groups, order);
    DrawnAre(groups[k], alloc[k]);
    MembersAre(tasks, STRATUM_OF, k);
    forall t | t in Drawn(groups[k], alloc[k])
      ensures t in Sampled(tasks, sample, k)
    {
      PickedAreNamed(picks, sample, t);
    }
    forall t | t in Sampled(tasks, sample, k)
      ensures t in Drawn(groups[k], alloc[k])
    {
      NamedArePicked(tasks, picks, sample, t);
    }
  }

  lemma CountIsAllocation(plan: Plan, tasks: seq<Task>, n: nat, sample: seq<string>, k: Stratum)
    requires Explains(plan, tasks, n, sample) && IdsAreDistinct(tasks) && k in plan.order
    ensures |Sampled(tasks, sample, k)| == plan.alloc[k]
  {
    SampledAreDrawn(tasks, sample, plan.alloc, plan.groups, plan.order, k);
    MembersKeepDistinct(tasks, STRATUM_OF, k);
    DrawnAre(plan.groups[k], plan.alloc[k]);
    SizeOfDistinct(Drawn(plan.groups[k], plan.alloc[k]));
  }

  // The allocation behind a sample is how many tasks it names in each stratum.
  lemma CountsAreTheAllocation(plan: Plan, tasks: seq<Task>, n: nat, sample: seq<string>)
    requires Explains(plan, tasks, n, sample) && IdsAreDistinct(tasks)
    ensures forall k <- plan.order :: |Sampled(tasks, sample, k)| == plan.alloc[k]
    ensures forall k | k !in plan.order :: Sampled(tasks, sample, k) == {} && Members(tasks, STRATUM_OF, k) == []
  {
    forall k <- plan.order
      ensures |Sampled(tasks, sample, k)| == plan.alloc[k]
    {
      CountIsAllocation(plan, tasks, n, sample, k);
    }
    forall k | k !in plan.order
      ensures Sampled(tasks, sample, k) == {}
    {
      MembersAre(tasks, STRATUM_OF, k);
    }
  }

  lemma QuotaOfNothing(n: nat, total: nat)
    requires total > 0
    ensures Floor(0, n, total) == 0 && Left(0, n, total) == 0
  {
  }

  // Every stratum is represented by the integer part of its quota or by one more, and never
  // beyond its size.
  lemma SampleIsProportional(plan: Plan, tasks: seq<Task>, n: nat, sample: seq<string>, k: Stratum)
    requires Explains(plan, tasks, n, sample) && IdsAreDistinct(tasks)
    ensures WithinQuota(|Sampled(tasks, sample, k)|, |Members(tasks, STRATUM_OF, k)|, n, |tasks|)
  {
    CountsAreTheAllocation(plan, tasks, n, sample);
    QuotaOfNothing(n, |tasks|);
    if k in plan.order {
      assert plan.groups[k] == Members(tasks, STRATUM_OF, k);
    }
  }

  // Whenever a stratum is rounded up, so is every stratum with a larger remainder.
  lemma LargerRemaindersAreServedFirst(plan: Plan, tasks: seq<Task>, n: nat, sample: seq<string>, a: Stratum,
                                       b: Stratum)
    requires Explains(plan, tasks, n, sample) && IdsAreDistinct(tasks)
    requires Left(|Members(tasks, STRATUM_OF, b)|, n, |tasks|) > Left(|Members(tasks, STRATUM_OF, a)|, n, |tasks|)
    requires IsRoundedUp(|Sampled(tasks, sample, a)|, |Members(tasks, STRATUM_OF, a)|, n, |tasks|)
    ensures IsRoundedUp(|Sampled(tasks, sample, b)|, |Members(tasks, STRATUM_OF, b)|, n, |tasks|)
  {
    CountsAreTheAllocation(plan, tasks, n, sample);
    QuotaOfNothing(n, |tasks|);
    assert a in plan.order && b in plan.order;
    assert plan.groups[a] == Members(tasks, STRATUM_OF, a) && plan.groups[b] == Members(tasks, STRATUM_OF, b);
  }

  // Within a stratum the tasks with the smallest ids are taken.
  lemma SmallestIdsAreTaken(plan: Plan, tasks: seq<Task>, n: nat, sample: seq<string>, t: Task, u: Task)
    requires Explains(plan, tasks, n, sample) && IdsAreDistinct(tasks)
    requires t in tasks && u in tasks && STRATUM_OF(t) == STRATUM_OF(u) && StringLe(t.id, u.id)
    requires u.id in sample
    ensures t.id in sample
  {
    var alloc, groups, order := plan.alloc, plan.groups, plan.order;
    var k := STRATUM_OF(t);
    MembersAre(tasks, STRATUM_OF, k);
    assert k in order && t in groups[k];
    SampledAreDrawn(tasks, sample, alloc, groups, order, k);
    assert u in Sampled(tasks, sample, k);
    DrawnAreSmallest(groups[k], alloc[k], t, u);
    StringLeIsTotal(t.id, u.id);
    if t !in Drawn(groups[k], alloc[k]) {
      IdNamesOneTask(tasks, t, u);
    }
    assert t in Sampled(tasks, sample, k);
  }

  lemma DrawnAreSmallest(members: seq<Task>, count: nat, t: Task, u: Task)
    requires count <= |members| && t in members && u in Drawn(members, count)
    ensures t in Drawn(members, count) || StringLe(u.id, t.id)
  {
    var sorted := Sort(BY_TASK_ID, members);
    SortKeepsElements(BY_TASK_ID, members);
    ByTaskIdIsPreorder();
    SortSorts(BY_TASK_ID, members);
    var i :| 0 <= i < count && sorted[i] == u;
    var j :| 0 <= j < |sorted| && sorted[j] == t;
    assert i < j ==> BY_TASK_ID(sorted[i], sorted[j]);
    assert j < count ==> sorted[..count][j] == t;
  }
}

// What the paired view and the admission of trials guarantee.
module StudyLaws {
  import opened Wrappers
  import opened Sequences
  import opened Receipts
  import opened TrialKeys
  import opened Sorting
  import opened Capsule
  import opened PairedView

  // -- belonging to a study --------------------------------------------------------

  // How a receipt may fail to belong to a study.
  predicate IsForeign(spec: Spec, r: Receipt, e: CapsuleError) {
    match e
    case ForeignStudy => r.trial.study != spec.study
    case ForeignSpec => r.specHash != spec.specHash
    case ForeignManifest => r.taskManifestHash != spec.taskManifestHash
    case UndeclaredTrial =>
      || r.trial.task !in spec.tasks || r.trial.arm !in spec.arms
      || r.trial.repetition < 1 || r.trial.repetition > spec.repetitions
      || r.trial.attempt < 1 || r.trial.attempt > spec.maxAttempts
    case ForeignContract => r.status == "valid" && r.scoreContract != Some(spec.scoreContract)
    case ForeignHarness => r.status == "valid" && r.harnessHash != Some(spec.harness)
    case ForeignUsage => r.status == "valid" && (r.usage.None? || r.usage.value.source != spec.tokenSource)
    case _ => false
  }

  // In the order in which they are reported.
  const WAYS_TO_BE_FOREIGN := [
    ForeignStudy, ForeignSpec, ForeignManifest, UndeclaredTrial, ForeignContract, ForeignHarness, ForeignUsage
  ]

  // A receipt belongs to a study if it is foreign in no way, and otherwise the first way is reported; what was
  // measured, and how, is looked at only where a receipt is valid.
  lemma BelongingIsExact(spec: Spec, r: Receipt)
    ensures CheckBelongs(spec, r).None? <==> forall e <- WAYS_TO_BE_FOREIGN :: !IsForeign(spec, r, e)
    ensures forall i | 0 <= i < |WAYS_TO_BE_FOREIGN| ::
              CheckBelongs(spec, r) == Some(WAYS_TO_BE_FOREIGN[i]) <==>
              IsForeign(spec, r, WAYS_TO_BE_FOREIGN[i])
              && forall j | 0 <= j < i :: !IsForeign(spec, r, WAYS_TO_BE_FOREIGN[j])
  {
    var first := FirstWay(spec, r);
  }

  lemma FirstWay(spec: Spec, r: Receipt) returns (i: nat)
    ensures i <= |WAYS_TO_BE_FOREIGN| && forall j | 0 <= j < i :: !IsForeign(spec, r, WAYS_TO_BE_FOREIGN[j])
    ensures i < |WAYS_TO_BE_FOREIGN| ==>
              IsForeign(spec, r, WAYS_TO_BE_FOREIGN[i]) && CheckBelongs(spec, r) == Some(WAYS_TO_BE_FOREIGN[i])
    ensures i == |WAYS_TO_BE_FOREIGN| ==> CheckBelongs(spec, r).None?
  {
    i := 0;
    while i < |WAYS_TO_BE_FOREIGN| && !IsForeign(spec, r, WAYS_TO_BE_FOREIGN[i])
      invariant i <= |WAYS_TO_BE_FOREIGN| && forall j | 0 <= j < i :: !IsForeign(spec, r, WAYS_TO_BE_FOREIGN[j])
    {
      i := i + 1;
    }
    var ways := WAYS_TO_BE_FOREIGN;
    assert ways[0] == ForeignStudy && ways[1] == ForeignSpec && ways[2] == ForeignManifest;
    assert ways[3] == UndeclaredTrial && ways[4] == ForeignContract && ways[5] == ForeignHarness;
    assert ways[6] == ForeignUsage;
    if i == |ways| {
      assert forall j | 0 <= j < 7 :: !IsForeign(spec, r, ways[j]);
    }
  }

  // The first `n` receipts belong to the study and have keys that differ, from each other and from `seen`.
  predicate StartsWell(spec: Spec, receipts: seq<Receipt>, seen: set<string>, n: nat)
    requires n <= |receipts|
  {
    && (forall j | 0 <= j < n :: CheckBelongs(spec, receipts[j]).None? && KeyOf(receipts[j].trial) !in seen)
    && (forall j, k | 0 <= j < k < n :: KeyOf(receipts[j].trial) != KeyOf(receipts[k].trial))
  }

  predicate RepeatsKey(receipts: seq<Receipt>, seen: set<string>, n: nat)
    requires n < |receipts|
  {
    KeyOf(receipts[n].trial) in seen || exists j | 0 <= j < n :: KeyOf(receipts[j].trial) == KeyOf(receipts[n].trial)
  }

  lemma RestStartsWell(spec: Spec, receipts: seq<Receipt>, seen: set<string>, n: nat)
    requires 0 < n < |receipts| && StartsWell(spec, receipts, seen, n)
    ensures StartsWell(spec, receipts[1..], seen + {KeyOf(receipts[0].trial)}, n - 1)
    ensures RepeatsKey(receipts, seen, n) ==> RepeatsKey(receipts[1..], seen + {KeyOf(receipts[0].trial)}, n - 1)
  {
    assert forall j | 0 < j < |receipts| :: receipts[j] == receipts[1..][j - 1];
  }

  // Building a capsule stops at the first receipt that is foreign or repeats a key, and reports in this order.
  lemma {:induction false} BuildStopsAtFirst(spec: Spec, receipts: seq<Receipt>, seen: set<string>, n: nat)
    requires n < |receipts| && StartsWell(spec, receipts, seen, n)
    ensures CheckBelongs(spec, receipts[n]).Some? ==>
              BuildProblem(spec, receipts, seen) == CheckBelongs(spec, receipts[n])
    ensures CheckBelongs(spec, receipts[n]).None? && RepeatsKey(receipts, seen, n) ==>
              BuildProblem(spec, receipts, seen) == Some(DuplicateTrial)
    decreases n
  {
    if n > 0 {
      RestStartsWell(spec, receipts, seen, n);
      BuildStopsAtFirst(spec, receipts[1..], seen + {KeyOf(receipts[0].trial)}, n - 1);
    }
  }

  // -- the admitted trial of a slot ------------------------------------------------

  lemma ChosenIsEarliest(candidates: seq<Receipt>)
    requires candidates != []
    ensures Chosen(candidates) in candidates
    ensures forall c <- candidates :: Chosen(candidates).trial.attempt <= c.trial.attempt
  {
    var ordered := Sort(EARLIER_ATTEMPT, candidates);
    SortSorts(EARLIER_ATTEMPT, candidates);
    SortKeepsElements(EARLIER_ATTEMPT, candidates);
    forall c <- candidates
      ensures Chosen(candidates).trial.attempt <= c.trial.attempt
    {
      assert c in ordered;
      var i :| 0 <= i < |ordered| && ordered[i] == c;
      assert i > 0 ==> EARLIER_ATTEMPT(ordered[0], ordered[i]);
    }
  }

  // A slot is admitted if it has a valid receipt, and then by the earliest attempt among them.
  lemma AdmittedIsEarliest(receipts: seq<Receipt>, s: Slot)
    ensures s in Admitted(receipts) <==> exists r <- receipts :: r.status == VALID && SlotOf(r.trial) == s
    ensures s in Admitted(receipts) ==>
              var r := Admitted(receipts)[s];
              && r in receipts && r.status == VALID && SlotOf(r.trial) == s
              && forall q <- receipts ::
                 q.status == VALID && SlotOf(q.trial) == s ==> r.trial.attempt <= q.trial.attempt
  {
    FilledSlotsHaveCandidates(receipts);
    CandidatesAre(receipts, s);
    if s in Admitted(receipts) {
      ChosenIsEarliest(Candidates(receipts, s));
    }
  }

  // -- the rectangle -----------------------------------------------------------------

  lemma {:induction false} RepSlotsAre(task: string, arm: string, rep: nat, last: nat)
    ensures forall s ::
              s in RepSlots(task, arm, rep, last) <==>
              s.task == task && s.arm == arm && rep <= s.repetition <= last
    ensures |RepSlots(task, arm, rep, last)| == if rep > last then 0 else last + 1 - rep
    ensures Distinct(RepSlots(task, arm, rep, last))
    decreases last + 1 - rep
  {
    if rep <= last {
      RepSlotsAre(task, arm, rep + 1, last);
      var slots := RepSlots(task, arm, rep, last);
      assert slots == [Slot(task, arm, rep)] + RepSlots(task, arm, rep + 1, last);
      assert slots[1..] == RepSlots(task, arm, rep + 1, last);
      DistinctFromHead(slots);
    }
  }

  lemma {:induction false} ArmSlotsHold(task: string, arms: seq<string>, last: nat)
    ensures forall s ::
              s in ArmSlots(task, arms, last) <==>
              s.task == task && s.arm in arms && 1 <= s.repetition <= last
  {
    if arms != [] {
      RepSlotsAre(task, arms[0], 1, last);
      ArmSlotsHold(task, arms[1..], last);
      assert arms == [arms[0]] + arms[1..];
    }
  }

  lemma {:induction false} ArmSlotsAreDistinct(task: string, arms: seq<string>, last: nat)
    requires Distinct(arms)
    ensures Distinct(ArmSlots(task, arms, last))
  {
    if arms != [] {
      DistinctFromHead(arms);
      RepSlotsAre(task, arms[0], 1, last);
      ArmSlotsAreDistinct(task, arms[1..], last);
      ArmSlotsHold(task, arms[1..], last);
      DistinctConcat(RepSlots(task, arms[0], 1, last), ArmSlots(task, arms[1..], last));
    }
  }

  lemma OneMoreTimes(n: nat, k: nat)
    requires n > 0
    ensures n * k == k + (n - 1) * k
  {
  }

  lemma {:induction false} CountArmSlots(task: string, arms: seq<string>, last: nat)
    ensures |ArmSlots(task, arms, last)| == |arms| * last
  {
    if arms != [] {
      RepSlotsAre(task, arms[0], 1, last);
      CountArmSlots(task, arms[1..], last);
      OneMoreTimes(|arms|, last);
    }
  }

  lemma {:induction false} RectangleHolds(tasks: seq<string>, arms: seq<string>, last: nat)
    ensures forall s ::
              s in Rectangle(tasks, arms, last) <==>
              s.task in tasks && s.arm in arms && 1 <= s.repetition <= last
  {
    if tasks != [] {
      ArmSlotsHold(tasks[0], arms, last);
      RectangleHolds(tasks[1..], arms, last);
      assert tasks == [tasks[0]] + tasks[1..];
    }
  }

  lemma {:induction false} RectangleIsDistinct(tasks: seq<string>, arms: seq<string>, last: nat)
    requires Distinct(tasks) && Distinct(arms)
    ensures Distinct(Rectangle(tasks, arms, last))
  {
    if tasks != [] {
      DistinctFromHead(tasks);
      ArmSlotsAreDistinct(tasks[0], arms, last);
      ArmSlotsHold(tasks[0], arms, last);
      RectangleIsDistinct(tasks[1..], arms, last);
      RectangleHolds(tasks[1..], arms, last);
      DistinctConcat(ArmSlots(tasks[0], arms, last), Rectangle(tasks[1..], arms, last));
    }
  }

  lemma {:induction false} CountRectangle(tasks: seq<string>, arms: seq<string>, last: nat)
    ensures |Rectangle(tasks, arms, last)| == |tasks| * (|arms| * last)
  {
    if tasks != [] {
      CountArmSlots(tasks[0], arms, last);
      CountRectangle(tasks[1..], arms, last);
      OneMoreTimes(|tasks|, |arms| * last);
    }
  }

  // The prespecified slots of a study: each once, tasks x arms x repetitions of them.
  lemma RectangleIs(tasks: seq<string>, arms: seq<string>, last: nat)
    requires Distinct(tasks) && Distinct(arms)
    ensures forall s ::
              s in Rectangle(tasks, arms, last) <==>
              s.task in tasks && s.arm in arms && 1 <= s.repetition <= last
    ensures |Rectangle(tasks, arms, last)| == |tasks| * (|arms| * last)
    ensures Distinct(Rectangle(tasks, arms, last))
  {
    RectangleHolds(tasks, arms, last);
    RectangleIsDistinct(tasks, arms, last);
    CountRectangle(tasks, arms, last);
  }

  lemma {:induction false} WithoutIs(slots: seq<Slot>, m: map<Slot, Receipt>)
    ensures forall s :: s in Without(slots, m) <==> s in slots && s !in m
    ensures Distinct(slots) ==> Distinct(Without(slots, m))
  {
    if slots != [] {
      WithoutIs(slots[1..], m);
      assert slots == [slots[0]] + slots[1..];
      DistinctFromHead(slots);
      if Distinct(slots) && slots[0] !in m {
        DistinctConcat([slots[0]], Without(slots[1..], m));
      }
    }
  }

  // An exclusion lists exactly the slots of its task for which no receipt was admitted.
  lemma MissingIs(spec: Spec, task: string, m: map<Slot, Receipt>)
    requires IsSpec(spec)
    ensures forall s :: s in Missing(spec, task, m) <==>
                        s.task == task && s.arm in spec.arms && 1 <= s.repetition <= spec.repetitions && s !in m
    ensures Distinct(Missing(spec, task, m))
  {
    ArmSlotsHold(task, spec.arms, spec.repetitions);
    ArmSlotsAreDistinct(task, spec.arms, spec.repetitions);
    WithoutIs(ArmSlots(task, spec.arms, spec.repetitions), m);
  }

  lemma {:induction false} CompleteIs(spec: Spec, tasks: seq<string>, m: map<Slot, Receipt>)
    requires Distinct(tasks)
    ensures forall t :: t in Complete(spec, tasks, m) <==> t in tasks && Missing(spec, t, m) == []
    ensures Distinct(Complete(spec, tasks, m))
  {
    if tasks != [] {
      DistinctFromHead(tasks);
      CompleteIs(spec, tasks[1..], m);
      assert tasks == [tasks[0]] + tasks[1..];
      if Missing(spec, tasks[0], m) == [] {
        DistinctConcat([tasks[0]], Complete(spec, tasks[1..], m));
      }
    }
  }

  lemma CompleteTaskHasEverySlot(spec: Spec, task: string, m: map<Slot, Receipt>)
    requires IsSpec(spec)
    ensures Missing(spec, task, m) == [] <==>
            forall arm, rep | arm in spec.arms && 1 <= rep <= spec.repetitions :: Slot(task, arm, rep) in m
  {
    MissingIs(spec, task, m);
    if Missing(spec, task, m) != [] {
      var s := Missing(spec, task, m)[0];
      assert s in Missing(spec, task, m);
      assert s == Slot(task, s.arm, s.repetition);
    } else {
      assert forall s :: s !in Missing(spec, task, m);
    }
  }

  // Kept and excluded tasks partition the tasks of the study, and each exclusion says why.
  lemma TasksArePartitioned(spec: Spec, m: map<Slot, Receipt>, v: View, slots: seq<Slot>)
    requires IsSpec(spec) && IsPairedView(spec, m, v, slots)
    ensures forall t :: t in spec.tasks <==> t in v.tasks || t in v.excluded
    ensures forall t <- v.tasks :: t !in v.excluded
    ensures forall t <- v.excluded :: v.excluded[t] == Missing(spec, t, m) && v.excluded[t] != []
  {
    CompleteIs(spec, spec.tasks, m);
  }

  // Every slot of the kept rectangle is filled once, and nothing else is in the view.
  lemma ViewFillsTheRectangle(spec: Spec, receipts: seq<Receipt>, v: View, slots: seq<Slot>)
    requires IsSpec(spec) && AllBelong(spec, receipts)
    requires IsPairedView(spec, Admitted(receipts), v, slots)
    ensures forall s :: s in slots <==> s.task in v.tasks && s.arm in v.arms && 1 <= s.repetition <= spec.repetitions
    ensures Distinct(slots) && |v.trials| == |slots| == |v.tasks| * (|v.arms| * spec.repetitions)
    ensures forall i | 0 <= i < |slots| :: SlotOf(v.trials[i].trial) == slots[i]
  {
    var m := Admitted(receipts);
    CompleteIs(spec, spec.tasks, m);
    AdmittedArmsAreDeclared(spec, receipts);
    forall s: Slot
      ensures s in slots <==> s.task in v.tasks && s.arm in v.arms && 1 <= s.repetition <= spec.repetitions
    {
      CompleteTaskHasEverySlot(spec, s.task, m);
      assert s == Slot(s.task, s.arm, s.repetition);
    }
    RectangleIs(v.tasks, v.arms, spec.repetitions);
    SameLength(slots, Rectangle(v.tasks, v.arms, spec.repetitions));
    forall i | 0 <= i < |slots|
      ensures SlotOf(v.trials[i].trial) == slots[i]
    {
      assert slots[i] in slots;
      AdmittedIsEarliest(receipts, slots[i]);
    }
  }

  // Every trial of the view is a receipt of the study that measured something: valid, scored, under
  // this specification, and the earliest valid attempt at its slot.
  lemma ViewHoldsMeasurements(spec: Spec, receipts: seq<Receipt>, v: View, slots: seq<Slot>, i: nat)
    requires AllBelong(spec, receipts) && forall r <- receipts :: WellFormed(r)
    requires IsPairedView(spec, Admitted(receipts), v, slots) && i < |v.trials|
    ensures var r := v.trials[i];
            && r in receipts && r.status == VALID && r.score.Some? && 0.0 <= r.score.value <= 1.0
            && r.trial.study == spec.study && r.specHash == spec.specHash && IsDeclared(spec, r.trial)
            && r.taskManifestHash == spec.taskManifestHash && r.harnessHash == Some(spec.harness)
            && r.scoreContract == Some(spec.scoreContract) && r.usage.Some? && r.usage.value.source == spec.tokenSource
            && forall q <- receipts ::
               q.status == VALID && SlotOf(q.trial) == SlotOf(r.trial) ==> r.trial.attempt <= q.trial.attempt
  {
    assert slots[i] in slots;
    AdmittedIsEarliest(receipts, slots[i]);
  }

  // The trials of the view are listed by task, then by arm, then by repetition.
  lemma TrialsAreInOrder(spec: Spec, receipts: seq<Receipt>, v: View, slots: seq<Slot>, i: nat, j: nat)
    requires IsPairedView(spec, Admitted(receipts), v, slots) && i < j < |v.trials|
    ensures var t, u := v.trials[i].trial, v.trials[j].trial;
            && ComesFirst(t.task, u.task)
            && (t.task == u.task ==> ComesFirst(t.arm, u.arm))
            && (t.task == u.task && t.arm == u.arm ==> t.repetition < u.repetition)
  {
    var a, b := slots[i], slots[j];
    assert a in slots && b in slots && SlotLe(a, b) && a != b;
    AdmittedIsEarliest(receipts, a);
    AdmittedIsEarliest(receipts, b);
    StringLeIsLexicographic(a.task, b.task);
    StringLeIsLexicographic(a.arm, b.arm);
  }

  // -- refusals ------------------------------------------------------------------------

  predicate IsValidAt(r: Receipt, s: Slot) {
    r.status == "valid" && r.trial.task == s.task && r.trial.arm == s.arm && r.trial.repetition == s.repetition
  }

  lemma {:induction false} CandidatesByIndex(receipts: seq<Receipt>, s: Slot)
    ensures |Candidates(receipts, s)| > 0 <==> exists i | 0 <= i < |receipts| :: IsValidAt(receipts[i], s)
    ensures |Candidates(receipts, s)| > 1 <==> ValidTwiceAt(receipts, s)
  {
    if receipts != [] {
      var rest := receipts[1..];
      CandidatesByIndex(rest, s);
      assert forall i | 0 <= i < |rest| :: rest[i] == receipts[i + 1];
      assert forall i | 0 < i < |receipts| :: receipts[i] == rest[i - 1];
    }
  }

  predicate ValidTwiceAt(receipts: seq<Receipt>, s: Slot) {
    exists i, j | 0 <= i < j < |receipts| :: IsValidAt(receipts[i], s) && IsValidAt(receipts[j], s)
  }

  // Two valid receipts for one slot.
  ghost predicate SomeSlotIsFilledTwice(receipts: seq<Receipt>) {
    exists s :: ValidTwiceAt(receipts, s)
  }

  // A declared arm without a valid receipt.
  predicate SomeArmHasNothing(spec: Spec, receipts: seq<Receipt>) {
    exists arm <- spec.arms :: forall r <- receipts :: r.status == "valid" ==> r.trial.arm != arm
  }

  predicate LacksSomething(spec: Spec, receipts: seq<Receipt>, task: string) {
    exists arm, rep | arm in spec.arms && 1 <= rep <= spec.repetitions ::
      forall r <- receipts :: !IsValidAt(r, Slot(task, arm, rep))
  }

  lemma TwoAreTwice(receipts: seq<Receipt>)
    ensures SomeSlotHasTwo(receipts) <==> SomeSlotIsFilledTwice(receipts)
  {
    FilledSlotsHaveCandidates(receipts);
    forall s: Slot
      ensures |Candidates(receipts, s)| > 1 <==> ValidTwiceAt(receipts, s)
    {
      CandidatesByIndex(receipts, s);
    }
  }

  lemma EmptyArmsAre(spec: Spec, receipts: seq<Receipt>)
    ensures SomeArmIsEmpty(spec, Admitted(receipts)) <==> SomeArmHasNothing(spec, receipts)
  {
    forall arm <- spec.arms
      ensures (forall s <- Admitted(receipts) :: s.arm != arm) <==>
              forall r <- receipts :: r.status == "valid" ==> r.trial.arm != arm
    {
      FilledSlotsHaveCandidates(receipts);
      assert forall r <- receipts :: r.status == VALID ==> SlotOf(r.trial) in Admitted(receipts);
    }
  }

  lemma LackingIs(spec: Spec, receipts: seq<Receipt>, task: string)
    requires IsSpec(spec)
    ensures Missing(spec, task, Admitted(receipts)) != [] <==> LacksSomething(spec, receipts, task)
  {
    CompleteTaskHasEverySlot(spec, task, Admitted(receipts));
    forall arm, rep
      ensures Slot(task, arm, rep) in Admitted(receipts) <==>
              exists r <- receipts :: IsValidAt(r, Slot(task, arm, rep))
    {
      AdmittedIsEarliest(receipts, Slot(task, arm, rep));
    }
  }

  // There is no paired view where one slot was measured twice although every repetition counts; and, unless
  // that is asked for, where a declared arm has nothing or every task lacks something.
  lemma RefusalIsExact(spec: Spec, receipts: seq<Receipt>, allowEmpty: bool)
    requires IsSpec(spec)
    ensures Refusal(spec, Admit(receipts, spec.policy), allowEmpty) ==
            if spec.policy == AllValidRepetitions && SomeSlotIsFilledTwice(receipts) then Some(TwoValidAttempts)
            else if !allowEmpty && SomeArmHasNothing(spec, receipts) then Some(EmptyArms)
            else if !allowEmpty && (forall t <- spec.tasks :: LacksSomething(spec, receipts, t))
                 then Some(NothingComplete)
            else None
  {
    TwoAreTwice(receipts);
    EmptyArmsAre(spec, receipts);
    CompleteIs(spec, spec.tasks, Admitted(receipts));
    forall t <- spec.tasks
      ensures Missing(spec, t, Admitted(receipts)) != [] <==> LacksSomething(spec, receipts, t)
    {
      LackingIs(spec, receipts, t);
    }
    var complete := Complete(spec, spec.tasks, Admitted(receipts));
    assert complete != [] ==> complete[0] in complete;
  }

  // -- admission reads trials and statuses only ----------------------------------------

  predicate HasValid(receipts: seq<Receipt>, t: TrialID) {
    exists r <- receipts :: r.status == VALID && r.trial == t
  }

  lemma {:induction false} CandidatesAreDistinct(receipts: seq<Receipt>, s: Slot)
    requires DistinctTrials(receipts)
    ensures DistinctTrials(Candidates(receipts, s))
  {
    if receipts != [] {
      assert receipts == [receipts[0]] + receipts[1..];
      assert forall i | 0 <= i < |receipts[1..]| :: receipts[1..][i] == receipts[i + 1];
      CandidatesAreDistinct(receipts[1..], s);
      CandidatesAre(receipts[1..], s);
      var rest := Candidates(receipts[1..], s);
      assert forall c <- rest :: c.trial != receipts[0].trial;
      assert forall i | 0 <= i < |rest| :: rest[i] in rest;
    }
  }

  ghost predicate HasTwoValid(receipts: seq<Receipt>, s: Slot) {
    exists t, u | SlotOf(t) == s && SlotOf(u) == s && t != u :: HasValid(receipts, t) && HasValid(receipts, u)
  }

  lemma TwoCandidates(receipts: seq<Receipt>, s: Slot)
    requires DistinctTrials(receipts)
    ensures |Candidates(receipts, s)| > 1 <==> HasTwoValid(receipts, s)
  {
    if |Candidates(receipts, s)| > 1 {
      TwoCandidatesAreTwoValid(receipts, s);
    }
    if HasTwoValid(receipts, s) {
      TwoValidAreTwoCandidates(receipts, s);
    }
  }

  lemma TwoCandidatesAreTwoValid(receipts: seq<Receipt>, s: Slot)
    requires DistinctTrials(receipts) && |Candidates(receipts, s)| > 1
    ensures HasTwoValid(receipts, s)
  {
    var c := Candidates(receipts, s);
    CandidatesAreDistinct(receipts, s);
    CandidatesAre(receipts, s);
    assert c[0] in c && c[1] in c;
    assert HasValid(receipts, c[0].trial) && HasValid(receipts, c[1].trial);
  }

  lemma TwoValidAreTwoCandidates(receipts: seq<Receipt>, s: Slot)
    requires HasTwoValid(receipts, s)
    ensures |Candidates(receipts, s)| > 1
  {
    var t, u :| SlotOf(t) == s && SlotOf(u) == s && t != u && HasValid(receipts, t) && HasValid(receipts, u);
    ValidIsCandidate(receipts, t);
    ValidIsCandidate(receipts, u);
  }

  lemma ValidIsCandidate(receipts: seq<Receipt>, t: TrialID)
    requires HasValid(receipts, t)
    ensures exists r <- Candidates(receipts, SlotOf(t)) :: r.trial == t
  {
    var r :| r in receipts && r.status == VALID && r.trial == t;
    CandidatesAre(receipts, SlotOf(t));
    assert r in Candidates(receipts, SlotOf(t));
  }

  predicate OfStudy(receipts: seq<Receipt>, study: string) {
    forall r <- receipts :: r.trial.study == study
  }

  ghost predicate SameValidTrials(a: seq<Receipt>, b: seq<Receipt>) {
    forall t :: HasValid(a, t) <==> HasValid(b, t)
  }

  lemma SlotAdmittedToo(a: seq<Receipt>, b: seq<Receipt>, s: Slot)
    requires SameValidTrials(a, b) && s in Admitted(a)
    ensures s in Admitted(b) && Admitted(b)[s].trial.attempt <= Admitted(a)[s].trial.attempt
  {
    AdmittedIsEarliest(a, s);
    AdmittedIsEarliest(b, s);
    var r := Admitted(a)[s];
    assert HasValid(a, r.trial);
    var q :| q in b && q.status == VALID && q.trial == r.trial;
  }

  lemma SlotAdmittedAlike(a: seq<Receipt>, b: seq<Receipt>, study: string, s: Slot)
    requires SameValidTrials(a, b) && OfStudy(a, study) && OfStudy(b, study)
    ensures s in Admitted(a) <==> s in Admitted(b)
    ensures s in Admitted(a) ==> Admitted(a)[s].trial == Admitted(b)[s].trial
  {
    if s in Admitted(a) {
      SlotAdmittedToo(a, b, s);
    }
    if s in Admitted(b) {
      SlotAdmittedToo(b, a, s);
    }
    AdmittedIsEarliest(a, s);
    AdmittedIsEarliest(b, s);
  }

  // Two lists of receipts with the same valid trials are admitted alike: in whatever order they
  // come, and whatever they say of scores, costs, hashes or times.
  lemma AdmissionReadsTrialsOnly(a: seq<Receipt>, b: seq<Receipt>, study: string, policy: Policy)
    requires DistinctTrials(a) && DistinctTrials(b) && OfStudy(a, study) && OfStudy(b, study)
    requires SameValidTrials(a, b)
    ensures Admit(a, policy).Success? == Admit(b, policy).Success?
    ensures Admitted(a).Keys == Admitted(b).Keys
    ensures forall s <- Admitted(a) :: Admitted(a)[s].trial == Admitted(b)[s].trial
  {
    forall s: Slot
      ensures s in Admitted(a) <==> s in Admitted(b)
      ensures s in Admitted(a) ==> Admitted(a)[s].trial == Admitted(b)[s].trial
    {
      SlotAdmittedAlike(a, b, study, s);
    }
    SameCrowding(a, b);
    SameCrowding(b, a);
  }

  lemma SameCrowding(a: seq<Receipt>, b: seq<Receipt>)
    requires DistinctTrials(a) && DistinctTrials(b) && SameValidTrials(a, b)
    ensures SomeSlotHasTwo(a) ==> SomeSlotHasTwo(b)
  {
    if SomeSlotHasTwo(a) {
      var s :| s in FilledSlots(a) && |Candidates(a, s)| > 1;
      TwoCandidates(a, s);
      TwoCandidates(b, s);
      FilledSlotsHaveCandidates(b);
    }
  }

  // Permuting the receipts changes nothing at all.
  lemma AdmissionIsOrderIndependent(a: seq<Receipt>, b: seq<Receipt>, study: string, policy: Policy)
    requires DistinctTrials(a) && DistinctTrials(b) && OfStudy(a, study)
    requires multiset(a) == multiset(b)
    ensures Admit(a, policy) == Admit(b, policy)
  {
    SameElements(a, b);
    SameElementsSameTrials(a, b, study);
    AdmissionReadsTrialsOnly(a, b, study, policy);
    forall s <- Admitted(a)
      ensures Admitted(a)[s] == Admitted(b)[s]
    {
      SameTrialSameReceipt(a, b, s);
    }
    SameAdmission(a, b, policy);
  }

  lemma SameElementsSameTrials(a: seq<Receipt>, b: seq<Receipt>, study: string)
    requires OfStudy(a, study) && forall r :: r in a <==> r in b
    ensures OfStudy(b, study) && SameValidTrials(a, b)
  {
  }

  lemma SameAdmission(a: seq<Receipt>, b: seq<Receipt>, policy: Policy)
    requires Admit(a, policy).Success? == Admit(b, policy).Success?
    requires Admitted(a).Keys == Admitted(b).Keys && forall s <- Admitted(a) :: Admitted(a)[s] == Admitted(b)[s]
    ensures Admit(a, policy) == Admit(b, policy)
  {
    assert Admitted(a) == Admitted(b);
  }

  lemma SameTrialSameReceipt(a: seq<Receipt>, b: seq<Receipt>, s: Slot)
    requires DistinctTrials(a) && forall r :: r in a <==> r in b
    requires s in Admitted(a) && s in Admitted(b) && Admitted(a)[s].trial == Admitted(b)[s].trial
    ensures Admitted(a)[s] == Admitted(b)[s]
  {
    AdmittedIsEarliest(a, s);
    AdmittedIsEarliest(b, s);
    assert Admitted(a)[s] in a && Admitted(b)[s] in a;
  }

  // Changing scores, or anything but identity and status, changes no admitted trial.
  lemma AdmissionIsScoreBlind(a: seq<Receipt>, b: seq<Receipt>, study: string, policy: Policy)
    requires DistinctTrials(a) && OfStudy(a, study)
    requires |a| == |b| && forall i | 0 <= i < |a| :: a[i].trial == b[i].trial && a[i].status == b[i].status
    ensures Admit(a, policy).Success? == Admit(b, policy).Success?
    ensures Admitted(a).Keys == Admitted(b).Keys
    ensures forall s <- Admitted(a) :: Admitted(a)[s].trial == Admitted(b)[s].trial
  {
    forall t
      ensures HasValid(a, t) <==> HasValid(b, t)
    {
      ValidAt(a, t);
      ValidAt(b, t);
    }
    forall r <- b
      ensures r.trial.study == study
    {
      var i :| 0 <= i < |b| && b[i] == r;
      assert a[i] in a;
    }
    AdmissionReadsTrialsOnly(a, b, study, policy);
  }

  lemma ValidAt(a: seq<Receipt>, t: TrialID)
    ensures HasValid(a, t) <==> exists i | 0 <= i < |a| :: a[i].status == VALID && a[i].trial == t
  {
    if HasValid(a, t) {
      var r :| r in a && r.status == VALID && r.trial == t;
      var i :| 0 <= i < |a| && a[i] == r;
    }
  }

  // -- later receipts --------------------------------------------------------------------

  // Under `first_valid_attempt`, appending receipts never loses a slot, never moves one to a later
  // attempt, and never makes a complete task incomplete.
  lemma AdmissionIsStable(spec: Spec, receipts: seq<Receipt>, more: seq<Receipt>)
    requires IsSpec(spec)
    ensures forall s <- Admitted(receipts) ::
              s in Admitted(receipts + more)
              && Admitted(receipts + more)[s].trial.attempt <= Admitted(receipts)[s].trial.attempt
    ensures forall t <- Complete(spec, spec.tasks, Admitted(receipts)) ::
              t in Complete(spec, spec.tasks, Admitted(receipts + more))
  {
    var before, after := Admitted(receipts), Admitted(receipts + more);
    forall s <- before
      ensures s in after && after[s].trial.attempt <= before[s].trial.attempt
    {
      AdmittedIsEarliest(receipts, s);
      AdmittedIsEarliest(receipts + more, s);
      assert before[s] in receipts + more;
    }
    CompleteIs(spec, spec.tasks, before);
    CompleteIs(spec, spec.tasks, after);
    forall t <- Complete(spec, spec.tasks, before)
      ensures t in Complete(spec, spec.tasks, after)
    {
      CompleteTaskHasEverySlot(spec, t, before);
      CompleteTaskHasEverySlot(spec, t, after);
    }
  }
}

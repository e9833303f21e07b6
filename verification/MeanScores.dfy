// The mean score of a cell of the paired view: it averages every declared repetition, once.
module MeanScores {
  import opened Wrappers
  import opened Sequences
  import opened Sorting
  import opened Sums
  import opened Receipts
  import opened Capsule
  import opened PairedView
  import opened StudyLaws

  predicate InCell(s: Slot, task: string, arm: string) {
    s.task == task && s.arm == arm
  }

  function CellScores(trials: seq<Receipt>, task: string, arm: string): seq<real> {
    if trials == [] then []
    else (if InCell(SlotOf(trials[0].trial), task, arm) && trials[0].score.Some? then [trials[0].score.value] else [])
         + CellScores(trials[1..], task, arm)
  }

  function Total(xs: seq<real>): real {
    if xs == [] then 0.0 else xs[0] + Total(xs[1..])
  }

  // No admitted trial for the cell is an error, not a zero.
  function MeanScore(trials: seq<Receipt>, task: string, arm: string): Option<real> {
    var scores := CellScores(trials, task, arm);
    if scores == [] then None else Some(Total(scores) / |scores| as real)
  }

  function CellSlots(slots: seq<Slot>, task: string, arm: string): seq<Slot> {
    if slots == [] then []
    else (if InCell(slots[0], task, arm) then [slots[0]] else []) + CellSlots(slots[1..], task, arm)
  }

  lemma {:induction false} CellSlotsAre(slots: seq<Slot>, task: string, arm: string)
    requires Distinct(slots)
    ensures forall s :: s in CellSlots(slots, task, arm) <==> s in slots && InCell(s, task, arm)
    ensures Distinct(CellSlots(slots, task, arm))
  {
    if slots != [] {
      DistinctFromHead(slots);
      CellSlotsAre(slots[1..], task, arm);
      assert slots == [slots[0]] + slots[1..];
      if InCell(slots[0], task, arm) {
        DistinctConcat([slots[0]], CellSlots(slots[1..], task, arm));
      }
    }
  }

  lemma {:induction false} OneScorePerSlot(trials: seq<Receipt>, slots: seq<Slot>, task: string, arm: string)
    requires |trials| == |slots|
    requires forall i | 0 <= i < |slots| :: SlotOf(trials[i].trial) == slots[i] && trials[i].score.Some?
    ensures |CellScores(trials, task, arm)| == |CellSlots(slots, task, arm)|
    decreases |trials|
  {
    if trials != [] {
      OneScorePerSlot(trials[1..], slots[1..], task, arm);
    }
  }

  lemma {:induction false} ScoresAreInRange(trials: seq<Receipt>, task: string, arm: string)
    requires forall r <- trials :: r.score.Some? ==> 0.0 <= r.score.value <= 1.0
    ensures 0.0 <= Total(CellScores(trials, task, arm)) <= |CellScores(trials, task, arm)| as real
  {
    if trials != [] {
      ScoresAreInRange(trials[1..], task, arm);
      var rest := CellScores(trials[1..], task, arm);
      var all := CellScores(trials, task, arm);
      if InCell(SlotOf(trials[0].trial), task, arm) && trials[0].score.Some? {
        assert all[0] == trials[0].score.value && all[1..] == rest;
        assert trials[0] in trials;
      } else {
        assert all == rest;
      }
    }
  }

  // Every cell of a kept task has a mean; it is over exactly the declared number of repetitions
  // and lies in [0, 1].
  lemma MeanCoversEveryRepetition(spec: Spec, receipts: seq<Receipt>, v: View, slots: seq<Slot>, task: string,
                                  arm: string)
    requires IsSpec(spec) && AllBelong(spec, receipts) && forall r <- receipts :: WellFormed(r)
    requires IsPairedView(spec, Admitted(receipts), v, slots)
    requires task in v.tasks && arm in v.arms
    ensures |CellScores(v.trials, task, arm)| == spec.repetitions
    ensures MeanScore(v.trials, task, arm).Some? && 0.0 <= MeanScore(v.trials, task, arm).value <= 1.0
  {
    ViewFillsTheRectangle(spec, receipts, v, slots);
    forall i | 0 <= i < |slots|
      ensures v.trials[i].score.Some? && 0.0 <= v.trials[i].score.value <= 1.0
    {
      ViewHoldsMeasurements(spec, receipts, v, slots, i);
    }
    OneScorePerSlot(v.trials, slots, task, arm);
    CellSlotsAre(slots, task, arm);
    RepSlotsAre(task, arm, 1, spec.repetitions);
    SameLength(CellSlots(slots, task, arm), RepSlots(task, arm, 1, spec.repetitions));
    ScoresAreInRange(v.trials, task, arm);
    QuotientInRange(Total(CellScores(v.trials, task, arm)), spec.repetitions);
  }

  lemma QuotientInRange(sum: real, n: nat)
    requires n >= 1 && 0.0 <= sum <= n as real
    ensures 0.0 <= sum / n as real <= 1.0
  {
  }

  // -- what the mean is ----------------------------------------------------------------------------

  lemma SlotLeIsAntisymmetric()
    ensures IsAntisymmetric(SlotLe)
  {
    forall a: Slot, b: Slot | SlotLe(a, b) && SlotLe(b, a)
      ensures a == b
    {
      StringLeIsTotal(a.task, b.task);
      StringLeIsTotal(a.arm, b.arm);
    }
  }

  lemma {:induction false} CellSlotsStaySorted(slots: seq<Slot>, task: string, arm: string)
    requires StrictlySorted(SlotLe, slots)
    ensures StrictlySorted(SlotLe, CellSlots(slots, task, arm))
    ensures forall s <- CellSlots(slots, task, arm) :: s in slots
  {
    if slots != [] {
      CellSlotsStaySorted(slots[1..], task, arm);
      assert slots == [slots[0]] + slots[1..];
      assert forall s <- slots[1..] :: SlotLe(slots[0], s) && slots[0] != s;
      if InCell(slots[0], task, arm) {
        StrictlySortedConcat(SlotLe, [slots[0]], CellSlots(slots[1..], task, arm));
      }
    }
  }

  lemma {:induction false} RepSlotAt(task: string, arm: string, rep: nat, last: nat, k: nat)
    requires rep + k <= last
    ensures |RepSlots(task, arm, rep, last)| == last + 1 - rep
    ensures RepSlots(task, arm, rep, last)[k] == Slot(task, arm, rep + k)
    decreases last + 1 - rep
  {
    RepSlotsAre(task, arm, rep, last);
    if k > 0 {
      RepSlotAt(task, arm, rep + 1, last, k - 1);
    }
  }

  // Sorted, the slots of a cell are its repetitions in order.
  lemma CellSlotsAreReps(slots: seq<Slot>, task: string, arm: string, last: nat)
    requires SortedBy(SlotLe, slots) && Distinct(slots)
    requires forall rep :: Slot(task, arm, rep) in slots <==> 1 <= rep <= last
    ensures CellSlots(slots, task, arm) == RepSlots(task, arm, 1, last)
  {
    SlotLeIsAntisymmetric();
    CellSlotsAre(slots, task, arm);
    CellSlotsStaySorted(slots, task, arm);
    var reps := RepSlots(task, arm, 1, last);
    RepSlotsAre(task, arm, 1, last);
    forall i | 0 <= i < |reps|
      ensures reps[i] == Slot(task, arm, 1 + i)
    {
      RepSlotAt(task, arm, 1, last, i);
    }
    forall s: Slot
      ensures s in CellSlots(slots, task, arm) <==> s in reps
    {
      if InCell(s, task, arm) {
        assert s == Slot(task, arm, s.repetition);
      }
    }
    SortedElementsAreUnique(SlotLe, CellSlots(slots, task, arm), reps);
  }

  // `at` tells the score of every trial of the cell by its repetition.
  predicate ScoresCell(at: int -> real, trials: seq<Receipt>, task: string, arm: string) {
    forall r <- trials :: r.trial.task == task && r.trial.arm == arm ==> r.score == Some(at(r.trial.repetition))
  }

  lemma {:induction false} ScoresFollowSlots(trials: seq<Receipt>, slots: seq<Slot>, task: string, arm: string,
                                             at: int -> real)
    requires |trials| == |slots| && forall i | 0 <= i < |slots| :: SlotOf(trials[i].trial) == slots[i]
    requires ScoresCell(at, trials, task, arm)
    ensures |CellScores(trials, task, arm)| == |CellSlots(slots, task, arm)|
    ensures forall i | 0 <= i < |CellSlots(slots, task, arm)| ::
              CellScores(trials, task, arm)[i] == at(CellSlots(slots, task, arm)[i].repetition)
    decreases |trials|
  {
    if trials != [] {
      assert trials == [trials[0]] + trials[1..];
      ScoresFollowSlots(trials[1..], slots[1..], task, arm, at);
    }
  }

  lemma {:induction false} TotalIsSum(xs: seq<real>, f: nat -> real)
    requires forall i: nat | i < |xs| :: xs[i] == f(i)
    ensures Total(xs) == Sum(|xs|, f)
  {
    if xs != [] {
      FirstSummand(|xs| - 1, f);
      TotalIsSum(xs[1..], (i: nat) => f(i + 1));
    }
  }

  lemma ScoresAt(trials: seq<Receipt>, slots: seq<Slot>, task: string, arm: string, last: nat, at: int -> real)
    requires |trials| == |slots| && forall i | 0 <= i < |slots| :: SlotOf(trials[i].trial) == slots[i]
    requires ScoresCell(at, trials, task, arm) && CellSlots(slots, task, arm) == RepSlots(task, arm, 1, last)
    ensures |CellScores(trials, task, arm)| == last
    ensures forall k: nat | k < last :: CellScores(trials, task, arm)[k] == at(k + 1)
  {
    ScoresFollowSlots(trials, slots, task, arm, at);
    RepSlotsAre(task, arm, 1, last);
    forall k: nat | k < last
      ensures CellScores(trials, task, arm)[k] == at(k + 1)
    {
      RepSlotAt(task, arm, 1, last, k);
    }
  }

  // One score for every repetition, in order.
  lemma ScoresOfCell(trials: seq<Receipt>, slots: seq<Slot>, task: string, arm: string, last: nat, at: int -> real)
    requires |trials| == |slots| && forall i | 0 <= i < |slots| :: SlotOf(trials[i].trial) == slots[i]
    requires SortedBy(SlotLe, slots) && Distinct(slots) && ScoresCell(at, trials, task, arm)
    requires forall rep :: Slot(task, arm, rep) in slots <==> 1 <= rep <= last
    ensures |CellScores(trials, task, arm)| == last
    ensures Total(CellScores(trials, task, arm)) == Sum(last, (k: nat) => at(k + 1))
  {
    CellSlotsAreReps(slots, task, arm, last);
    ScoresAt(trials, slots, task, arm, last, at);
    TotalIsSum(CellScores(trials, task, arm), (k: nat) => at(k + 1));
  }

  // The mean of a cell of a kept task is the sum of the scores of repetitions 1, ..., R over R.
  lemma MeanAveragesRepetitions(spec: Spec, receipts: seq<Receipt>, v: View, slots: seq<Slot>, task: string,
                                arm: string, at: int -> real)
    requires IsSpec(spec) && AllBelong(spec, receipts)
    requires IsPairedView(spec, Admitted(receipts), v, slots)
    requires task in v.tasks && arm in v.arms && ScoresCell(at, v.trials, task, arm)
    ensures MeanScore(v.trials, task, arm)
         == Some(Sum(spec.repetitions, (k: nat) => at(k + 1)) / spec.repetitions as real)
  {
    ViewFillsTheRectangle(spec, receipts, v, slots);
    ScoresOfCell(v.trials, slots, task, arm, spec.repetitions, at);
  }

  // There is no mean exactly where no trial of the cell has a score.
  lemma {:induction false} NoScoreNoMean(trials: seq<Receipt>, task: string, arm: string)
    ensures MeanScore(trials, task, arm).None? <==>
            forall r <- trials :: r.trial.task == task && r.trial.arm == arm ==> r.score.None?
  {
    if trials != [] {
      NoScoreNoMean(trials[1..], task, arm);
      assert trials == [trials[0]] + trials[1..];
    }
  }
}

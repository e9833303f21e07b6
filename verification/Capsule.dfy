// The study capsule: a specification and its receipts, checked together, and the paired view that
// admits one valid receipt per prespecified slot. Functions say what is admitted; the methods are
// the loops of the source, proved to compute it.
module Capsule {
  import opened Wrappers
  import opened Sequences
  import opened Receipts
  import opened TrialKeys
  import opened Sorting
  import Grouping

  datatype Policy = AllValidRepetitions | FirstValidAttempt

  datatype Spec = Spec(
    study: string,
    specHash: string,
    taskManifestHash: string,
    tasks: seq<string>,
    arms: seq<string>,
    repetitions: nat,
    policy: Policy,
    maxAttempts: nat,
    harness: string,
    tokenSource: string,
    scoreContract: string)

  // What every specification that was read from its file guarantees.
  predicate IsSpec(spec: Spec) {
    Distinct(spec.tasks) && Distinct(spec.arms) && spec.tasks != [] && spec.arms != [] && spec.repetitions >= 1
  }

  datatype CapsuleError =
    | NoReceipts | ForeignStudy | ForeignSpec | ForeignManifest | UndeclaredTrial | ForeignContract
    | ForeignHarness | ForeignUsage | DuplicateTrial | TwoValidAttempts | EmptyArms | NothingComplete

  // -- belonging -----------------------------------------------------------------

  predicate IsDeclaredSlot(spec: Spec, s: Slot) {
    s.task in spec.tasks && s.arm in spec.arms && 1 <= s.repetition <= spec.repetitions
  }

  predicate IsDeclared(spec: Spec, t: TrialID) {
    IsDeclaredSlot(spec, SlotOf(t)) && 1 <= t.attempt <= spec.maxAttempts
  }

  function CheckBelongs(spec: Spec, r: Receipt): Option<CapsuleError> {
    if r.trial.study != spec.study then Some(ForeignStudy)
    else if r.specHash != spec.specHash then Some(ForeignSpec)
    else if r.taskManifestHash != spec.taskManifestHash then Some(ForeignManifest)
    else if !IsDeclared(spec, r.trial) then Some(UndeclaredTrial)
    else if r.status != VALID then None
    else if r.scoreContract != Some(spec.scoreContract) then Some(ForeignContract)
    else if r.harnessHash != Some(spec.harness) then Some(ForeignHarness)
    else if r.usage.None? || r.usage.value.source != spec.tokenSource then Some(ForeignUsage)
    else None
  }

  // The first receipt that is foreign or repeats a key decides.
  function BuildProblem(spec: Spec, receipts: seq<Receipt>, seen: set<string>): Option<CapsuleError> {
    if receipts == [] then None
    else
      var r := receipts[0];
      if CheckBelongs(spec, r).Some? then CheckBelongs(spec, r)
      else if KeyOf(r.trial) in seen then Some(DuplicateTrial)
      else BuildProblem(spec, receipts[1..], seen + {KeyOf(r.trial)})
  }

  method Build(spec: Spec, receipts: seq<Receipt>) returns (error: Option<CapsuleError>)
    ensures error == if receipts == [] then Some(NoReceipts) else BuildProblem(spec, receipts, {})
  {
    if receipts == [] {
      return Some(NoReceipts);
    }
    var seen := {};
    assert receipts[0..] == receipts;
    for i := 0 to |receipts|
      invariant BuildProblem(spec, receipts[i..], seen) == BuildProblem(spec, receipts, {})
    {
      var r := receipts[i];
      assert receipts[i..][0] == r && receipts[i..][1..] == receipts[i + 1..];
      var foreign := CheckBelongs(spec, r);
      if foreign.Some? {
        return foreign;
      }
      if KeyOf(r.trial) in seen {
        return Some(DuplicateTrial);
      }
      seen := seen + {KeyOf(r.trial)};
    }
    return None;
  }

  predicate AllBelong(spec: Spec, receipts: seq<Receipt>) {
    forall r <- receipts :: CheckBelongs(spec, r).None?
  }

  function Keys(receipts: seq<Receipt>): seq<string> {
    if receipts == [] then [] else [KeyOf(receipts[0].trial)] + Keys(receipts[1..])
  }

  lemma {:induction false} BuildProblemIsExact(spec: Spec, receipts: seq<Receipt>, seen: set<string>)
    ensures BuildProblem(spec, receipts, seen).None? <==>
            AllBelong(spec, receipts) && Distinct(Keys(receipts)) && forall k <- Keys(receipts) :: k !in seen
    decreases |receipts|
  {
    if receipts != [] {
      var key, rest := KeyOf(receipts[0].trial), receipts[1..];
      BuildProblemIsExact(spec, rest, seen + {key});
      assert receipts == [receipts[0]] + rest;
      DistinctFromHead(Keys(receipts));
      assert Keys(receipts)[0] == key && Keys(receipts)[1..] == Keys(rest);
      assert Keys(receipts) == [key] + Keys(rest);
    }
  }

  lemma {:induction false} KeysAt(receipts: seq<Receipt>, i: nat)
    requires i < |receipts|
    ensures |Keys(receipts)| == |receipts| && Keys(receipts)[i] == KeyOf(receipts[i].trial)
    decreases i, |receipts|
  {
    if i > 0 {
      KeysAt(receipts[1..], i - 1);
    } else if |receipts| > 1 {
      KeysAt(receipts[1..], 0);
    }
  }

  lemma DistinctKeysMeanDistinctTrials(receipts: seq<Receipt>)
    requires Distinct(Keys(receipts))
    ensures DistinctTrials(receipts)
  {
    forall i, j | 0 <= i < j < |receipts|
      ensures receipts[i].trial != receipts[j].trial
    {
      KeysAt(receipts, i);
      KeysAt(receipts, j);
    }
  }

  // A capsule is built from exactly the lists of receipts that all belong to the study and of
  // which no two have the same key; in particular no trial occurs twice in it.
  lemma BuildAcceptsExactly(spec: Spec, receipts: seq<Receipt>)
    ensures BuildProblem(spec, receipts, {}).None? <==> AllBelong(spec, receipts) && Distinct(Keys(receipts))
    ensures BuildProblem(spec, receipts, {}).None? ==> DistinctTrials(receipts)
  {
    BuildProblemIsExact(spec, receipts, {});
    if Distinct(Keys(receipts)) {
      DistinctKeysMeanDistinctTrials(receipts);
    }
  }

  // -- when a key identifies a trial ---------------------------------------------

  predicate IsTrialOf(spec: Spec, t: TrialID) {
    t.study == spec.study && IsDeclared(spec, t)
  }

  function CellText(task: string, arm: string): string {
    task + "/" + arm
  }

  // No two declared cells are joined to the same text.
  predicate CellsAreUnambiguous(spec: Spec) {
    forall a, b, c, d | a in spec.tasks && b in spec.tasks && c in spec.arms && d in spec.arms ::
      CellText(a, c) == CellText(b, d) ==> a == b && c == d
  }

  ghost predicate KeysIdentifyTrials(spec: Spec) {
    forall t, u | IsTrialOf(spec, t) && IsTrialOf(spec, u) :: KeyOf(t) == KeyOf(u) ==> t == u
  }

  lemma StemsAgree(t: TrialID, u: TrialID)
    requires t.study == u.study
    ensures Stem(t) == Stem(u) <==> CellText(t.task, t.arm) == CellText(u.task, u.arm)
  {
    var n := |t.study| + 1;
    assert Stem(t)[n..] == CellText(t.task, t.arm) && Stem(u)[n..] == CellText(u.task, u.arm);
  }

  // Rejecting equal keys rejects nothing but repeated trials, for exactly the specifications whose
  // cells are unambiguous.
  lemma KeysIdentifyTrialsExactly(spec: Spec)
    requires spec.repetitions >= 1 && spec.maxAttempts >= 1
    ensures KeysIdentifyTrials(spec) <==> CellsAreUnambiguous(spec)
  {
    if CellsAreUnambiguous(spec) {
      forall t, u | IsTrialOf(spec, t) && IsTrialOf(spec, u) && KeyOf(t) == KeyOf(u)
        ensures t == u
      {
        KeysAgreeExactly(t, u);
        StemsAgree(t, u);
      }
    }
    if KeysIdentifyTrials(spec) {
      forall a, b, c, d | a in spec.tasks && b in spec.tasks && c in spec.arms && d in spec.arms
        && CellText(a, c) == CellText(b, d)
        ensures a == b && c == d
      {
        var t, u := TrialID(spec.study, a, c, 1, 1), TrialID(spec.study, b, d, 1, 1);
        KeysAgreeExactly(t, u);
        StemsAgree(t, u);
        assert IsTrialOf(spec, t) && IsTrialOf(spec, u);
      }
    }
  }

  // -- admission -----------------------------------------------------------------

  function Candidates(receipts: seq<Receipt>, s: Slot): seq<Receipt> {
    if receipts == [] then []
    else (if receipts[0].status == VALID && SlotOf(receipts[0].trial) == s then [receipts[0]] else [])
         + Candidates(receipts[1..], s)
  }

  function FilledSlots(receipts: seq<Receipt>): set<Slot> {
    set r | r in receipts && r.status == VALID :: SlotOf(r.trial)
  }

  const EARLIER_ATTEMPT: (Receipt, Receipt) -> bool := (a: Receipt, b: Receipt) => a.trial.attempt <= b.trial.attempt

  // The candidate with the earliest attempt.
  function Chosen(candidates: seq<Receipt>): Receipt
    requires candidates != []
  {
    SortKeepsElements(EARLIER_ATTEMPT, candidates);
    Sort(EARLIER_ATTEMPT, candidates)[0]
  }

  lemma {:induction false} CandidatesAre(receipts: seq<Receipt>, s: Slot)
    ensures forall r :: r in Candidates(receipts, s) <==> r in receipts && r.status == VALID && SlotOf(r.trial) == s
  {
    if receipts != [] {
      CandidatesAre(receipts[1..], s);
      assert receipts == [receipts[0]] + receipts[1..];
    }
  }

  lemma FilledSlotsHaveCandidates(receipts: seq<Receipt>)
    ensures forall s :: s in FilledSlots(receipts) <==> Candidates(receipts, s) != []
  {
    forall s: Slot
      ensures s in FilledSlots(receipts) <==> Candidates(receipts, s) != []
    {
      CandidatesAre(receipts, s);
      if Candidates(receipts, s) != [] {
        assert Candidates(receipts, s)[0] in Candidates(receipts, s);
      }
    }
  }

  predicate SomeSlotHasTwo(receipts: seq<Receipt>) {
    exists s <- FilledSlots(receipts) :: |Candidates(receipts, s)| > 1
  }

  function Admitted(receipts: seq<Receipt>): map<Slot, Receipt> {
    FilledSlotsHaveCandidates(receipts);
    map s | s in FilledSlots(receipts) :: Chosen(Candidates(receipts, s))
  }

  function Admit(receipts: seq<Receipt>, policy: Policy): Result<map<Slot, Receipt>, CapsuleError> {
    if policy == AllValidRepetitions && SomeSlotHasTwo(receipts) then Failure(TwoValidAttempts)
    else Success(Admitted(receipts))
  }

  lemma {:induction false} CandidatesOfConcat(a: seq<Receipt>, b: seq<Receipt>, s: Slot)
    ensures Candidates(a + b, s) == Candidates(a, s) + Candidates(b, s)
  {
    if a == [] {
      assert a + b == b;
    } else {
      assert (a + b)[1..] == a[1..] + b;
      CandidatesOfConcat(a[1..], b, s);
    }
  }

  ghost predicate HoldCandidates(slots: map<Slot, seq<Receipt>>, receipts: seq<Receipt>) {
    forall s <- slots :: slots[s] == Candidates(receipts, s)
  }

  ghost predicate IsOrderOf(order: seq<Slot>, slots: set<Slot>) {
    Distinct(order) && forall s :: s in order <==> s in slots
  }

  // `slots` groups the valid receipts, and `order` is the order in which slots were first seen.
  ghost predicate Groups(slots: map<Slot, seq<Receipt>>, order: seq<Slot>, receipts: seq<Receipt>) {
    slots.Keys == FilledSlots(receipts) && HoldCandidates(slots, receipts) && IsOrderOf(order, slots.Keys)
  }

  lemma AppendedCandidates(receipts: seq<Receipt>, r: Receipt, s: Slot)
    ensures r.status == VALID && SlotOf(r.trial) == s ==>
              Candidates(receipts + [r], s) == Candidates(receipts, s) + [r]
    ensures r.status != VALID || SlotOf(r.trial) != s ==> Candidates(receipts + [r], s) == Candidates(receipts, s)
  {
    CandidatesOfConcat(receipts, [r], s);
    assert [r][1..] == [];
    assert Candidates(receipts, s) + [] == Candidates(receipts, s);
  }

  lemma AppendedSlots(receipts: seq<Receipt>, r: Receipt)
    ensures FilledSlots(receipts + [r])
         == FilledSlots(receipts) + (if r.status == VALID then {SlotOf(r.trial)} else {})
  {
    assert forall q :: q in receipts + [r] <==> q in receipts || q == r;
  }

  lemma OthersHold(slots: map<Slot, seq<Receipt>>, receipts: seq<Receipt>, r: Receipt, s: Slot, g: seq<Receipt>)
    requires HoldCandidates(slots, receipts) && r.status == VALID && s == SlotOf(r.trial)
    requires g == Candidates(receipts, s) + [r]
    ensures HoldCandidates(slots[s := g], receipts + [r])
  {
    forall x <- slots[s := g]
      ensures slots[s := g][x] == Candidates(receipts + [r], x)
    {
      AppendedCandidates(receipts, r, x);
    }
  }

  lemma GroupsSkip(slots: map<Slot, seq<Receipt>>, order: seq<Slot>, receipts: seq<Receipt>, r: Receipt)
    requires Groups(slots, order, receipts) && r.status != VALID
    ensures Groups(slots, order, receipts + [r])
  {
    AppendedSlots(receipts, r);
    forall x <- slots
      ensures slots[x] == Candidates(receipts + [r], x)
    {
      AppendedCandidates(receipts, r, x);
    }
  }

  lemma GroupsGrow(slots: map<Slot, seq<Receipt>>, order: seq<Slot>, receipts: seq<Receipt>, r: Receipt, s: Slot)
    requires Groups(slots, order, receipts) && r.status == VALID && s == SlotOf(r.trial) && s in slots
    ensures Groups(slots[s := slots[s] + [r]], order, receipts + [r])
  {
    AppendedSlots(receipts, r);
    OthersHold(slots, receipts, r, s, slots[s] + [r]);
    assert slots[s := slots[s] + [r]].Keys == slots.Keys == FilledSlots(receipts + [r]);
  }

  lemma GroupsStart(slots: map<Slot, seq<Receipt>>, order: seq<Slot>, receipts: seq<Receipt>, r: Receipt, s: Slot)
    requires Groups(slots, order, receipts) && r.status == VALID && s == SlotOf(r.trial) && s !in slots
    ensures Groups(slots[s := [r]], order + [s], receipts + [r])
  {
    AppendedSlots(receipts, r);
    NoCandidateYet(receipts, s);
    assert [] + [r] == [r];
    OthersHold(slots, receipts, r, s, [r]);
    assert slots[s := [r]].Keys == slots.Keys + {s} == FilledSlots(receipts + [r]);
    Grouping.OrderGrows(order, s);
  }

  lemma NoCandidateYet(receipts: seq<Receipt>, s: Slot)
    requires s !in FilledSlots(receipts)
    ensures Candidates(receipts, s) == []
  {
    FilledSlotsHaveCandidates(receipts);
  }

  method GroupValid(receipts: seq<Receipt>) returns (slots: map<Slot, seq<Receipt>>, order: seq<Slot>)
    ensures Groups(slots, order, receipts)
  {
    slots, order := map[], [];
    for i := 0 to |receipts|
      invariant Groups(slots, order, receipts[..i])
    {
      var r := receipts[i];
      assert receipts[..i + 1] == receipts[..i] + [r];
      if r.status != VALID {
        GroupsSkip(slots, order, receipts[..i], r);
      } else {
        var s := SlotOf(r.trial);
        if s !in slots {
          GroupsStart(slots, order, receipts[..i], r, s);
          order := order + [s];
          slots := slots[s := [r]];
        } else {
          GroupsGrow(slots, order, receipts[..i], r, s);
          slots := slots[s := slots[s] + [r]];
        }
      }
    }
    assert receipts[..|receipts|] == receipts;
  }

  // The earliest of each group, unless a group of several is not allowed.
  method ChooseEach(slots: map<Slot, seq<Receipt>>, order: seq<Slot>, policy: Policy)
    returns (admitted: Option<map<Slot, Receipt>>)
    requires forall s <- order :: s in slots && slots[s] != []
    ensures admitted.None? <==> policy == AllValidRepetitions && exists s <- order :: |slots[s]| > 1
    ensures admitted.Some? ==> forall s :: s in admitted.value <==> s in order
    ensures admitted.Some? ==> forall s <- admitted.value :: admitted.value[s] == Chosen(slots[s])
  {
    var chosen: map<Slot, Receipt> := map[];
    for i := 0 to |order|
      invariant forall s :: s in chosen <==> s in order[..i]
      invariant forall s <- chosen :: s in slots && chosen[s] == Chosen(slots[s])
      invariant policy == AllValidRepetitions ==> forall s <- order[..i] :: |slots[s]| <= 1
    {
      var slot := order[i];
      assert slot in order;
      SortKeepsElements(EARLIER_ATTEMPT, slots[slot]);
      var ordered := Sort(EARLIER_ATTEMPT, slots[slot]);
      if |ordered| > 1 && policy == AllValidRepetitions {
        return None;
      }
      chosen := chosen[slot := ordered[0]];
      assert order[..i + 1] == order[..i] + [slot];
    }
    assert order[..|order|] == order;
    return Some(chosen);
  }

  method AdmitTrials(receipts: seq<Receipt>, policy: Policy)
    returns (result: Result<map<Slot, Receipt>, CapsuleError>, order: seq<Slot>)
    ensures result == Admit(receipts, policy)
    ensures result.Success? ==> Distinct(order) && forall s :: s in order <==> s in result.value
  {
    var slots;
    slots, order := GroupValid(receipts);
    GroupsAreNotEmpty(slots, order, receipts);
    var admitted := ChooseEach(slots, order, policy);
    GroupsHaveTwo(slots, order, receipts);
    if admitted.None? {
      return Failure(TwoValidAttempts), order;
    }
    AdmittedIs(receipts, slots, order, admitted.value);
    return Success(admitted.value), order;
  }

  lemma GroupsAreNotEmpty(slots: map<Slot, seq<Receipt>>, order: seq<Slot>, receipts: seq<Receipt>)
    requires Groups(slots, order, receipts)
    ensures forall s <- order :: s in slots && slots[s] != []
  {
    FilledSlotsHaveCandidates(receipts);
  }

  lemma GroupsHaveTwo(slots: map<Slot, seq<Receipt>>, order: seq<Slot>, receipts: seq<Receipt>)
    requires Groups(slots, order, receipts)
    ensures (exists s <- order :: |slots[s]| > 1) <==> SomeSlotHasTwo(receipts)
  {
    if s :| s in FilledSlots(receipts) && |Candidates(receipts, s)| > 1 {
      assert s in order && |slots[s]| > 1;
    }
    if s :| s in order && |slots[s]| > 1 {
      assert s in FilledSlots(receipts);
    }
  }

  lemma AdmittedIs(receipts: seq<Receipt>, slots: map<Slot, seq<Receipt>>, order: seq<Slot>,
                   admitted: map<Slot, Receipt>)
    requires Groups(slots, order, receipts)
    requires forall s :: s in admitted <==> s in order
    requires forall s <- admitted :: s in slots && slots[s] != [] && admitted[s] == Chosen(slots[s])
    ensures admitted == Admitted(receipts)
  {
    FilledSlotsHaveCandidates(receipts);
    assert admitted.Keys == FilledSlots(receipts);
  }
}

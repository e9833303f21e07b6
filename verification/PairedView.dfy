// The paired view: the tasks that are complete in every declared arm, the admitted trials of those
// tasks, and for every other task the slots it lacks.
module PairedView {
  import opened Wrappers
  import opened Sequences
  import opened Receipts
  import opened Sorting
  import opened Capsule

  datatype View = View(trials: seq<Receipt>, tasks: seq<string>, arms: seq<string>, excluded: map<string, seq<Slot>>)

  // -- slots -----------------------------------------------------------------------

  function RepSlots(task: string, arm: string, rep: nat, last: nat): seq<Slot>
    decreases last + 1 - rep
  {
    if rep > last then [] else [Slot(task, arm, rep)] + RepSlots(task, arm, rep + 1, last)
  }

  function ArmSlots(task: string, arms: seq<string>, last: nat): seq<Slot> {
    if arms == [] then [] else RepSlots(task, arms[0], 1, last) + ArmSlots(task, arms[1..], last)
  }

  // The prespecified slots in declaration order.
  function Rectangle(tasks: seq<string>, arms: seq<string>, last: nat): seq<Slot> {
    if tasks == [] then [] else ArmSlots(tasks[0], arms, last) + Rectangle(tasks[1..], arms, last)
  }

  function Without(slots: seq<Slot>, m: map<Slot, Receipt>): seq<Slot> {
    if slots == [] then []
    else (if slots[0] in m then [] else [slots[0]]) + Without(slots[1..], m)
  }

  function Missing(spec: Spec, task: string, m: map<Slot, Receipt>): seq<Slot> {
    Without(ArmSlots(task, spec.arms, spec.repetitions), m)
  }

  function Complete(spec: Spec, tasks: seq<string>, m: map<Slot, Receipt>): seq<string> {
    if tasks == [] then []
    else (if Missing(spec, tasks[0], m) == [] then [tasks[0]] else []) + Complete(spec, tasks[1..], m)
  }

  function Excluded(spec: Spec, tasks: seq<string>, m: map<Slot, Receipt>): map<string, seq<Slot>> {
    map task | task in tasks && Missing(spec, task, m) != [] :: Missing(spec, task, m)
  }

  // Slots as Python sorts them.
  predicate SlotLe(a: Slot, b: Slot) {
    if a.task != b.task then StringLe(a.task, b.task)
    else if a.arm != b.arm then StringLe(a.arm, b.arm)
    else a.repetition <= b.repetition
  }

  lemma SlotLeIsPreorder()
    ensures IsPreorder(SlotLe)
  {
    forall a: Slot, b: Slot
      ensures SlotLe(a, b) || SlotLe(b, a)
    {
      StringLeIsTotal(a.task, b.task);
      StringLeIsTotal(a.arm, b.arm);
    }
    forall a: Slot, b: Slot, c: Slot | SlotLe(a, b) && SlotLe(b, c)
      ensures SlotLe(a, c)
    {
      SlotLeIsTransitive(a, b, c);
    }
  }

  lemma SlotLeIsTransitive(a: Slot, b: Slot, c: Slot)
    requires SlotLe(a, b) && SlotLe(b, c)
    ensures SlotLe(a, c)
  {
    StringLeIsTotal(a.task, b.task);
    StringLeIsTotal(a.arm, b.arm);
    if StringLe(a.task, b.task) && StringLe(b.task, c.task) {
      StringLeIsTransitive(a.task, b.task, c.task);
    }
    if StringLe(a.arm, b.arm) && StringLe(b.arm, c.arm) {
      StringLeIsTransitive(a.arm, b.arm, c.arm);
    }
  }

  // -- the view ----------------------------------------------------------------------

  predicate SomeArmIsEmpty(spec: Spec, m: map<Slot, Receipt>) {
    exists arm <- spec.arms :: forall s <- m :: s.arm != arm
  }

  function SlotsOf(trials: seq<Receipt>): seq<Slot> {
    if trials == [] then [] else [SlotOf(trials[0].trial)] + SlotsOf(trials[1..])
  }

  // `slots` are sorted and are exactly the admitted slots of kept tasks, and `trials` fill them.
  ghost predicate AreTrialsOf(trials: seq<Receipt>, slots: seq<Slot>, kept: seq<string>, m: map<Slot, Receipt>) {
    && SortedBy(SlotLe, slots) && Distinct(slots)
    && (forall s :: s in slots <==> s in m && s.task in kept)
    && |trials| == |slots| && forall i | 0 <= i < |slots| :: trials[i] == m[slots[i]]
  }

  ghost predicate IsPairedView(spec: Spec, m: map<Slot, Receipt>, v: View, slots: seq<Slot>) {
    && v.tasks == Complete(spec, spec.tasks, m)
    && v.arms == spec.arms
    && v.excluded == Excluded(spec, spec.tasks, m)
    && AreTrialsOf(v.trials, slots, v.tasks, m)
  }

  method MissingReps(spec: Spec, task: string, arm: string, m: map<Slot, Receipt>) returns (missing: seq<Slot>)
    ensures missing == Without(RepSlots(task, arm, 1, spec.repetitions), m)
  {
    missing := [];
    ghost var last := spec.repetitions;
    ghost var all := Without(RepSlots(task, arm, 1, last), m);
    for rep := 1 to spec.repetitions + 1
      invariant missing + Without(RepSlots(task, arm, rep, last), m) == all
    {
      var slot := Slot(task, arm, rep);
      assert RepSlots(task, arm, rep, last)[1..] == RepSlots(task, arm, rep + 1, last);
      Associate(missing, if slot in m then [] else [slot], Without(RepSlots(task, arm, rep + 1, last), m));
      missing := missing + (if slot in m then [] else [slot]);
    }
    assert missing + [] == missing;
  }

  method MissingSlots(spec: Spec, task: string, m: map<Slot, Receipt>) returns (missing: seq<Slot>)
    ensures missing == Missing(spec, task, m)
  {
    missing := [];
    ghost var last := spec.repetitions;
    ghost var all := Missing(spec, task, m);
    assert spec.arms[0..] == spec.arms && missing + all == all;
    for a := 0 to |spec.arms|
      invariant missing + Without(ArmSlots(task, spec.arms[a..], last), m) == all
    {
      ghost var rest := ArmSlots(task, spec.arms[a + 1..], last);
      assert spec.arms[a..][1..] == spec.arms[a + 1..];
      WithoutOfConcat(RepSlots(task, spec.arms[a], 1, last), rest, m);
      var more := MissingReps(spec, task, spec.arms[a], m);
      Associate(missing, more, Without(rest, m));
      missing := missing + more;
    }
    assert missing + [] == missing;
  }

  lemma {:induction false} WithoutOfConcat(a: seq<Slot>, b: seq<Slot>, m: map<Slot, Receipt>)
    ensures Without(a + b, m) == Without(a, m) + Without(b, m)
  {
    if a == [] {
      assert a + b == b;
    } else {
      assert (a + b)[1..] == a[1..] + b;
      WithoutOfConcat(a[1..], b, m);
    }
  }

  lemma ExcludedExtends(spec: Spec, tasks: seq<string>, task: string, m: map<Slot, Receipt>)
    ensures Excluded(spec, tasks + [task], m)
         == if Missing(spec, task, m) == [] then Excluded(spec, tasks, m)
            else Excluded(spec, tasks, m)[task := Missing(spec, task, m)]
  {
    assert forall t :: t in tasks + [task] <==> t in tasks || t == task;
  }

  method SplitTasks(spec: Spec, m: map<Slot, Receipt>) returns (complete: seq<string>, excluded: map<string, seq<Slot>>)
    ensures complete == Complete(spec, spec.tasks, m) && excluded == Excluded(spec, spec.tasks, m)
  {
    complete, excluded := [], map[];
    ghost var all := Complete(spec, spec.tasks, m);
    assert spec.tasks[0..] == spec.tasks && complete + all == all;
    for i := 0 to |spec.tasks|
      invariant complete + Complete(spec, spec.tasks[i..], m) == all
      invariant excluded == Excluded(spec, spec.tasks[..i], m)
    {
      var task := spec.tasks[i];
      assert spec.tasks[i..][1..] == spec.tasks[i + 1..];
      assert spec.tasks[..i + 1] == spec.tasks[..i] + [task];
      ExcludedExtends(spec, spec.tasks[..i], task, m);
      var missing := MissingSlots(spec, task, m);
      Associate(complete, if missing == [] then [task] else [], Complete(spec, spec.tasks[i + 1..], m));
      if missing != [] {
        excluded := excluded[task := missing];
        assert complete + [] == complete;
      } else {
        complete := complete + [task];
      }
    }
    assert spec.tasks[..|spec.tasks|] == spec.tasks && complete + [] == complete;
  }

  method HasEmptyArm(spec: Spec, order: seq<Slot>, m: map<Slot, Receipt>) returns (empty: bool)
    requires forall s :: s in order <==> s in m
    requires forall s <- m :: s.arm in spec.arms
    ensures empty == SomeArmIsEmpty(spec, m)
  {
    var byArm: map<string, nat> := map arm | arm in spec.arms :: 0;
    for i := 0 to |order|
      invariant byArm.Keys == set arm | arm in spec.arms
      invariant forall arm <- spec.arms :: byArm[arm] == 0 <==> forall s <- order[..i] :: s.arm != arm
    {
      assert order[i] in order;
      assert order[..i + 1] == order[..i] + [order[i]];
      byArm := byArm[order[i].arm := byArm[order[i].arm] + 1];
    }
    assert order[..|order|] == order;
    empty := exists arm <- spec.arms :: byArm[arm] == 0;
  }

  // `trials` and `slots` are what was kept of the slots `seen` so far.
  ghost predicate KeptSoFar(trials: seq<Receipt>, slots: seq<Slot>, seen: seq<Slot>, kept: seq<string>,
                            m: map<Slot, Receipt>) {
    && SortedBy(SlotLe, slots) && Distinct(slots)
    && (forall s :: s in slots <==> s in seen && s.task in kept)
    && |trials| == |slots| && forall i | 0 <= i < |slots| :: slots[i] in m && trials[i] == m[slots[i]]
  }

  lemma KeepNext(trials: seq<Receipt>, slots: seq<Slot>, seen: seq<Slot>, kept: seq<string>, m: map<Slot, Receipt>,
                 slot: Slot)
    requires KeptSoFar(trials, slots, seen, kept, m) && slot in m
    requires forall s <- seen :: SlotLe(s, slot) && s != slot
    ensures slot.task in kept ==> KeptSoFar(trials + [m[slot]], slots + [slot], seen + [slot], kept, m)
    ensures slot.task !in kept ==> KeptSoFar(trials, slots, seen + [slot], kept, m)
  {
    assert forall s :: s in seen + [slot] <==> s in seen || s == slot;
    assert forall s :: s in slots + [slot] <==> s in slots || s == slot;
    assert forall i | 0 <= i < |slots| :: slots[i] in slots && slots[i] in seen;
  }

  lemma SortedSlots(order: seq<Slot>)
    requires Distinct(order)
    ensures SortedBy(SlotLe, Sort(SlotLe, order)) && Distinct(Sort(SlotLe, order))
    ensures forall s :: s in Sort(SlotLe, order) <==> s in order
  {
    SlotLeIsPreorder();
    SortSorts(SlotLe, order);
    SortKeepsElements(SlotLe, order);
    DistinctPermutes(Sort(SlotLe, order), order);
  }

  lemma SortedPrefix(sorted: seq<Slot>, i: nat)
    requires SortedBy(SlotLe, sorted) && Distinct(sorted) && i < |sorted|
    ensures forall s <- sorted[..i] :: SlotLe(s, sorted[i]) && s != sorted[i]
  {
  }

  method KeptTrials(order: seq<Slot>, kept: seq<string>, m: map<Slot, Receipt>)
    returns (trials: seq<Receipt>, ghost slots: seq<Slot>)
    requires Distinct(order) && forall s :: s in order <==> s in m
    ensures AreTrialsOf(trials, slots, kept, m)
  {
    var sorted := Sort(SlotLe, order);
    SortedSlots(order);
    trials, slots := [], [];
    for i := 0 to |sorted|
      invariant KeptSoFar(trials, slots, sorted[..i], kept, m)
    {
      var slot := sorted[i];
      assert slot in sorted;
      assert sorted[..i + 1] == sorted[..i] + [slot];
      SortedPrefix(sorted, i);
      KeepNext(trials, slots, sorted[..i], kept, m, slot);
      if slot.task in kept {
        trials, slots := trials + [m[slot]], slots + [slot];
      }
    }
    assert sorted[..|sorted|] == sorted;
  }

  // Why there is no paired view of what was admitted: no arm may be empty and some task must be complete.
  function Refusal(spec: Spec, admitted: Result<map<Slot, Receipt>, CapsuleError>,
                   allowEmpty: bool): Option<CapsuleError> {
    if admitted.Failure? then Some(admitted.error)
    else if !allowEmpty && SomeArmIsEmpty(spec, admitted.value) then Some(EmptyArms)
    else if !allowEmpty && Complete(spec, spec.tasks, admitted.value) == [] then Some(NothingComplete)
    else None
  }

  // What the paired view of a capsule is, or why there is none. Only a caller that asks for it
  // gets a view that lacks an arm or has no complete task.
  method PairedValid(spec: Spec, receipts: seq<Receipt>, allowEmpty: bool)
    returns (result: Result<View, CapsuleError>, ghost slots: seq<Slot>)
    requires AllBelong(spec, receipts)
    ensures result.Failure? <==> Refusal(spec, Admit(receipts, spec.policy), allowEmpty).Some?
    ensures result.Failure? ==> Refusal(spec, Admit(receipts, spec.policy), allowEmpty) == Some(result.error)
    ensures result.Success? ==> IsPairedView(spec, Admitted(receipts), result.value, slots)
  {
    slots := [];
    var admitted, order := AdmitTrials(receipts, spec.policy);
    if admitted.Failure? {
      return Failure(admitted.error), slots;
    }
    var m := admitted.value;
    var complete, excluded := SplitTasks(spec, m);
    if !allowEmpty {
      AdmittedArmsAreDeclared(spec, receipts);
      var empty := HasEmptyArm(spec, order, m);
      if empty {
        return Failure(EmptyArms), slots;
      }
      if complete == [] {
        return Failure(NothingComplete), slots;
      }
    }
    var trials;
    trials, slots := KeptTrials(order, complete, m);
    result := Success(View(trials, complete, spec.arms, excluded));
  }

  lemma AdmittedArmsAreDeclared(spec: Spec, receipts: seq<Receipt>)
    requires AllBelong(spec, receipts)
    ensures forall s <- Admitted(receipts) :: IsDeclaredSlot(spec, s)
  {
    forall s <- Admitted(receipts)
      ensures IsDeclaredSlot(spec, s)
    {
      var r :| r in receipts && r.status == VALID && SlotOf(r.trial) == s;
    }
  }
}

// The judge is a ceiling, a failure of the infrastructure is never a score, and a judge that has
// failed is not asked again.
module RunnerLaws {
  import opened Wrappers
  import opened Sums
  import opened ScoreContract
  import opened Runner
  import ScorerGuard

  ghost predicate AreFractions(tier1: seq<Tier1>) {
    forall t <- tier1 :: t.Graded? ==> 0.0 <= t.score <= 1.0
  }

  // The judge validates what it returns to be a fraction.
  ghost predicate IsJudge(answers: nat -> Judgement) {
    forall n: nat :: answers(n).Judged? ==> 0.0 <= answers(n).score <= 1.0
  }

  // Every score that the guard lets through is a fraction, and whether the checkpoint passed is what the
  // verifier declared, or that it scored anything where it declared no truth value.
  lemma GuardedScoresAreFractions(stderr: string, output: ScorerGuard.Output, show: ScorerGuard.Show,
                                  guarded: ScorerGuard.Guarded, explain: ScorerGuard.Cause -> string)
    requires ScorerGuard.IsGuarded(stderr, output, show, guarded)
    ensures var t := Tier1Of(guarded, show, explain);
            && (t.Graded? <==> ScorerGuard.ReachedVerdict(stderr, output, show))
            && (t.Graded? ==> 0.0 <= t.score <= 1.0 && t.detail == ScorerGuard.DetailOf(output.value.fields, show))
            && (t.Graded? ==> t.passed == DeclaredPassed(output.value.fields, t.score))
  {
    if guarded.Verdict? {
      assert "detail" in guarded.fields <==> "detail" in output.value.fields;
      assert "detail" in guarded.fields ==> guarded.fields["detail"] == output.value.fields["detail"];
    }
  }

  predicate DeclaredPassed(fields: map<string, ScorerGuard.Value>, score: real) {
    if "passed" in fields && fields["passed"].Bool? then fields["passed"].b else score > 0.0
  }

  lemma AdvanceAppends(p: Progress, cp: Checkpoint, tier1: Tier1, judging: bool, answers: nat -> Judgement)
    ensures var q := Advance(p, cp, tier1, judging, answers);
            |q.results| == |p.results| + 1 && forall k | 0 <= k < |p.results| :: q.results[k] == p.results[k]
  {
  }

  // A result stays as it was when its checkpoint was run.
  lemma {:induction false} RunKeeps(cps: seq<Checkpoint>, tier1: seq<Tier1>, judging: bool, answers: nat -> Judgement,
                                    n: nat, i: nat)
    requires i < n <= |cps| == |tier1|
    ensures |Run(cps, tier1, judging, answers, i + 1).results| == i + 1
    ensures |Run(cps, tier1, judging, answers, n).results| == n
    ensures Run(cps, tier1, judging, answers, n).results[i] == Run(cps, tier1, judging, answers, i + 1).results[i]
  {
    RunLength(cps, tier1, judging, answers, i + 1);
    RunLength(cps, tier1, judging, answers, n);
    if i + 1 < n {
      RunKeeps(cps, tier1, judging, answers, n - 1, i);
      AdvanceAppends(Run(cps, tier1, judging, answers, n - 1), cps[n - 1], tier1[n - 1], judging, answers);
    }
  }

  lemma {:induction false} RunLength(cps: seq<Checkpoint>, tier1: seq<Tier1>, judging: bool,
                                     answers: nat -> Judgement, n: nat)
    requires n <= |cps| == |tier1|
    ensures |Run(cps, tier1, judging, answers, n).results| == n
  {
    if n > 0 {
      RunLength(cps, tier1, judging, answers, n - 1);
      AdvanceAppends(Run(cps, tier1, judging, answers, n - 1), cps[n - 1], tier1[n - 1], judging, answers);
    }
  }

  // -- one checkpoint ----------------------------------------------------------------------------------

  // What a verifier said, if it said anything.
  function Said(detail: string): seq<Note> {
    if |detail| > 0 then [Text(detail)] else []
  }

  // What the last checkpoint of a run came to, in terms of its verifier.
  ghost predicate IsCapped(r: CheckpointResult, cp: Checkpoint, tier1: Tier1, judging: bool) {
    && r.name == cp.name && r.weight == cp.weight
    && (tier1.Graded? ==> r.infra.None? && r.score <= tier1.score && (r.passed <==> r.score > 0.0))
    && (tier1.Ungraded? ==> r.infra == Some(tier1.error) && r.score == 0.0 && !r.passed)
    && (tier1.Ungraded? ==> r.detail == Said(tier1.error.detail))
    && (!judging && tier1.Graded? ==> r.score == tier1.score && r.detail == Said(tier1.detail))
  }

  lemma AdvanceCaps(p: Progress, cp: Checkpoint, tier1: Tier1, judging: bool, answers: nat -> Judgement)
    requires tier1.Graded? ==> 0.0 <= tier1.score
    ensures var q := Advance(p, cp, tier1, judging, answers);
            && |q.results| == |p.results| + 1
            && IsCapped(q.results[|p.results|], cp, tier1, judging)
            && (IsJudge(answers) ==> q.results[|p.results|].score >= 0.0)
  {
  }

  // Whatever the judge does, a checkpoint never scores more than its verifier gave it, it passes exactly
  // when it scores, and its infrastructure error is the verifier's.
  lemma ScoreIsCapped(cps: seq<Checkpoint>, tier1: seq<Tier1>, judging: bool, answers: nat -> Judgement, i: nat)
    requires |cps| == |tier1| && i < |cps| && AreFractions(tier1)
    ensures |Run(cps, tier1, judging, answers, |cps|).results| == |cps|
    ensures IsCapped(Run(cps, tier1, judging, answers, |cps|).results[i], cps[i], tier1[i], judging)
    ensures IsJudge(answers) ==> Run(cps, tier1, judging, answers, |cps|).results[i].score >= 0.0
  {
    RunKeeps(cps, tier1, judging, answers, |cps|, i);
    RunLength(cps, tier1, judging, answers, i);
    assert tier1[i] in tier1;
    AdvanceCaps(Run(cps, tier1, judging, answers, i), cps[i], tier1[i], judging, answers);
  }

  // A verifier that awards half of the score and declares that the checkpoint did not pass: the run
  // reports it as passed.
  lemma DeclaredFailureIsReportedPassed(show: ScorerGuard.Show, guarded: ScorerGuard.Guarded,
                                        explain: ScorerGuard.Cause -> string, cp: Checkpoint, answers: nat -> Judgement)
    requires ScorerGuard.IsGuarded("", HALF_BUT_FAILED, show, guarded)
    ensures guarded.Verdict? && Tier1Of(guarded, show, explain) == Graded(0.5, false, "")
    ensures Run([cp], [Tier1Of(guarded, show, explain)], false, answers, 1).results == [Scored(cp, 0.5, [])]
    ensures Scored(cp, 0.5, []).passed
  {
    NothingInNothing();
    var t := Tier1Of(guarded, show, explain);
    assert t == Graded(0.5, false, "");
    assert Run([cp], [t], false, answers, 0) == START;
    assert [] + [Scored(cp, 0.5, [])] == [Scored(cp, 0.5, [])];
  }

  const HALF_BUT_FAILED := ScorerGuard.Json(ScorerGuard.Dict(map[
    "score" := ScorerGuard.Number(0.5), "passed" := ScorerGuard.Bool(false)]))

  lemma NothingInNothing()
    ensures !ScorerGuard.Contains("", ScorerGuard.HARNESS_IMPORT_FAILURE)
    ensures ScorerGuard.InfraSignature("").None?
  {
  }

  // -- the judge -------------------------------------------------------------------------------------------

  // The judge is asked about checkpoints in order, each once, and only about those with a verdict. Every
  // answer but the last was not a failure, and once there has been a failure there are no more calls.
  ghost predicate CallsAreSound(tier1: seq<Tier1>, answers: nat -> Judgement, p: Progress, n: nat)
    requires n <= |tier1|
  {
    && (forall k | 0 <= k < |p.calls| :: p.calls[k] < n && tier1[p.calls[k]].Graded?)
    && (forall k, m | 0 <= k < m < |p.calls| :: p.calls[k] < p.calls[m])
    && (forall k | 0 <= k < |p.calls| - 1 :: !answers(k).JudgeFailed?)
    && (p.failure.None? ==> forall k | 0 <= k < |p.calls| :: !answers(k).JudgeFailed?)
    && (p.failure.Some? ==> p.calls != [] && answers(|p.calls| - 1) == JudgeFailed(p.failure.value))
  }

  lemma AdvanceKeepsCallsSound(tier1: seq<Tier1>, p: Progress, cp: Checkpoint, judging: bool,
                               answers: nat -> Judgement, n: nat)
    requires n < |tier1| && |p.results| == n && CallsAreSound(tier1, answers, p, n)
    ensures CallsAreSound(tier1, answers, Advance(p, cp, tier1[n], judging, answers), n + 1)
  {
  }

  lemma {:induction false} JudgeStopsAtFirstFailure(cps: seq<Checkpoint>, tier1: seq<Tier1>, judging: bool,
                                                       answers: nat -> Judgement, n: nat)
    requires n <= |cps| == |tier1|
    ensures CallsAreSound(tier1, answers, Run(cps, tier1, judging, answers, n), n)
  {
    if n > 0 {
      JudgeStopsAtFirstFailure(cps, tier1, judging, answers, n - 1);
      RunLength(cps, tier1, judging, answers, n - 1);
      AdvanceKeepsCallsSound(tier1, Run(cps, tier1, judging, answers, n - 1), cps[n - 1], judging, answers, n - 1);
    }
  }

  // As long as the judge has not failed it has been asked about every checkpoint with a verdict.
  lemma {:induction false} JudgeIsAskedUntilItFails(cps: seq<Checkpoint>, tier1: seq<Tier1>,
                                                    answers: nat -> Judgement, n: nat, i: nat)
    requires i < n <= |cps| == |tier1| && tier1[i].Graded?
    requires Run(cps, tier1, true, answers, n).failure.None?
    ensures i in Run(cps, tier1, true, answers, n).calls
  {
    RunLength(cps, tier1, true, answers, n - 1);
    var before := Run(cps, tier1, true, answers, n - 1);
    if i < n - 1 {
      JudgeIsAskedUntilItFails(cps, tier1, answers, n - 1, i);
      assert before.calls <= Run(cps, tier1, true, answers, n).calls;
    } else {
      assert Run(cps, tier1, true, answers, n).calls == before.calls + [i];
    }
  }

  function Decided(grep: real, j: Judgement): real {
    match j
    case Judged(score) => if score < grep then score else grep
    case NotApplicable => grep
    case JudgeFailed(_) => 0.0
  }

  // What the answer adds to the detail: both scores and the smaller one, or why there is none.
  function Added(grep: real, j: Judgement): seq<Note> {
    match j
    case Judged(score) => [Capped(grep, score, Decided(grep, j))]
    case NotApplicable => []
    case JudgeFailed(why) => [Sentinel(why)]
  }

  // Every answer decided the score of the checkpoint it was about, and says so in its detail.
  ghost predicate AreDecided(tier1: seq<Tier1>, answers: nat -> Judgement, p: Progress, n: nat) {
    && |p.results| == n <= |tier1|
    && forall k | 0 <= k < |p.calls| ::
      && p.calls[k] < n && tier1[p.calls[k]].Graded?
      && IsDecided(p.results[p.calls[k]], tier1[p.calls[k]], answers(k))
  }

  predicate IsDecided(r: CheckpointResult, tier1: Tier1, j: Judgement)
    requires tier1.Graded?
  {
    r.score == Decided(tier1.score, j) && r.detail == Said(tier1.detail) + Added(tier1.score, j)
  }

  lemma LastAnswerDecides(p: Progress, cp: Checkpoint, tier1: Tier1, answers: nat -> Judgement)
    ensures var q := Advance(p, cp, tier1, true, answers);
            && p.calls <= q.calls <= p.calls + [|p.results|]
            && (q.calls != p.calls ==>
               tier1.Graded? && IsDecided(q.results[|p.results|], tier1, answers(|p.calls|)))
  {
    if tier1.Graded? {
      assert Said(tier1.detail) + [] == Said(tier1.detail) == NotesOf(tier1.detail);
    }
  }

  lemma AdvanceKeepsDecided(tier1: seq<Tier1>, answers: nat -> Judgement, p: Progress, cp: Checkpoint, n: nat)
    requires n < |tier1| && AreDecided(tier1, answers, p, n)
    ensures AreDecided(tier1, answers, Advance(p, cp, tier1[n], true, answers), n + 1)
  {
    AdvanceAppends(p, cp, tier1[n], true, answers);
    LastAnswerDecides(p, cp, tier1[n], answers);
  }

  lemma {:induction false} RunIsDecided(cps: seq<Checkpoint>, tier1: seq<Tier1>, answers: nat -> Judgement, n: nat)
    requires n <= |cps| == |tier1|
    ensures AreDecided(tier1, answers, Run(cps, tier1, true, answers, n), n)
  {
    if n > 0 {
      RunIsDecided(cps, tier1, answers, n - 1);
      AdvanceKeepsDecided(tier1, answers, Run(cps, tier1, true, answers, n - 1), cps[n - 1], n - 1);
    }
  }

  // What the judge answers about a checkpoint decides its score: the smaller of the two, the verifier's
  // where the judge has no say, nothing where it failed; the detail gives the reason.
  lemma AnswerDecidesTheScore(cps: seq<Checkpoint>, tier1: seq<Tier1>, answers: nat -> Judgement, n: nat, k: nat)
    requires n <= |cps| == |tier1| && k < |Run(cps, tier1, true, answers, n).calls|
    ensures |Run(cps, tier1, true, answers, n).results| == n
    ensures var p := Run(cps, tier1, true, answers, n);
            p.calls[k] < n && tier1[p.calls[k]].Graded?
            && p.results[p.calls[k]].score == Decided(tier1[p.calls[k]].score, answers(k))
            && p.results[p.calls[k]].detail
               == Said(tier1[p.calls[k]].detail) + Added(tier1[p.calls[k]].score, answers(k))
  {
    RunIsDecided(cps, tier1, answers, n);
  }

  // A checkpoint that was reached after the judge had failed, or on which it failed, scores nothing, and
  // says so in its detail.
  lemma NoScoreAfterFailure(cps: seq<Checkpoint>, tier1: seq<Tier1>, answers: nat -> Judgement, i: nat)
    requires i < |cps| == |tier1| && tier1[i].Graded?
    requires Run(cps, tier1, true, answers, i + 1).failure.Some?
    ensures |Run(cps, tier1, true, answers, |cps|).results| == |cps|
    ensures var r := Run(cps, tier1, true, answers, |cps|).results[i];
            && r.score == 0.0 && !r.passed
            && r.detail == Said(tier1[i].detail) + [Sentinel(Run(cps, tier1, true, answers, i + 1).failure.value)]
  {
    RunKeeps(cps, tier1, true, answers, |cps|, i);
    RunLength(cps, tier1, true, answers, i);
  }

  // -- passed ------------------------------------------------------------------------------------------------

  function GradedBefore(tier1: seq<Tier1>, n: nat): nat
    requires n <= |tier1|
  {
    if n == 0 then 0 else GradedBefore(tier1, n - 1) + (if tier1[n - 1].Graded? then 1 else 0)
  }

  predicate FailsBefore(answers: nat -> Judgement, k: nat) {
    exists j | 0 <= j < k :: answers(j).JudgeFailed?
  }

  // What checkpoint `i` will score, from the verdicts and the answers alone: its answer is the one after
  // those about the verdicts before it.
  function JudgedScore(tier1: seq<Tier1>, answers: nat -> Judgement, i: nat): real
    requires i < |tier1| && tier1[i].Graded?
  {
    var k := GradedBefore(tier1, i);
    if FailsBefore(answers, k) then 0.0 else Decided(tier1[i].score, answers(k))
  }

  ghost predicate IsForeseen(tier1: seq<Tier1>, answers: nat -> Judgement, p: Progress, n: nat)
    requires n <= |tier1|
  {
    && (p.failure.Some? <==> FailsBefore(answers, GradedBefore(tier1, n)))
    && (p.failure.None? ==> |p.calls| == GradedBefore(tier1, n))
  }

  lemma AdvanceIsForeseen(tier1: seq<Tier1>, answers: nat -> Judgement, p: Progress, cp: Checkpoint, n: nat)
    requires n < |tier1| && IsForeseen(tier1, answers, p, n)
    ensures IsForeseen(tier1, answers, Advance(p, cp, tier1[n], true, answers), n + 1)
    ensures tier1[n].Graded? ==>
              var q := Advance(p, cp, tier1[n], true, answers);
              |q.results| == |p.results| + 1 && q.results[|p.results|].score == JudgedScore(tier1, answers, n)
  {
    var k := GradedBefore(tier1, n);
    assert FailsBefore(answers, k + 1) <==> FailsBefore(answers, k) || answers(k).JudgeFailed?;
  }

  lemma {:induction false} RunIsForeseen(cps: seq<Checkpoint>, tier1: seq<Tier1>, answers: nat -> Judgement, n: nat)
    requires n <= |cps| == |tier1|
    ensures IsForeseen(tier1, answers, Run(cps, tier1, true, answers, n), n)
  {
    if n > 0 {
      RunIsForeseen(cps, tier1, answers, n - 1);
      AdvanceIsForeseen(tier1, answers, Run(cps, tier1, true, answers, n - 1), cps[n - 1], n - 1);
    }
  }

  // The score of a judged checkpoint can be told before the run: nothing once an answer about an earlier
  // verdict is a failure, and otherwise what its own answer decides.
  lemma JudgedScoreIsForeseen(cps: seq<Checkpoint>, tier1: seq<Tier1>, answers: nat -> Judgement, i: nat)
    requires i < |cps| == |tier1| && tier1[i].Graded?
    ensures |Run(cps, tier1, true, answers, |cps|).results| == |cps|
    ensures Run(cps, tier1, true, answers, |cps|).results[i].score == JudgedScore(tier1, answers, i)
  {
    RunKeeps(cps, tier1, true, answers, |cps|, i);
    RunLength(cps, tier1, true, answers, i);
    RunIsForeseen(cps, tier1, answers, i);
    AdvanceIsForeseen(tier1, answers, Run(cps, tier1, true, answers, i), cps[i], i);
  }

  // A run reports a checkpoint as passed when it scored. So it agrees with the verifier exactly when the
  // verifier declared a pass if and only if its score, or with a judge the score foreseen, is positive.
  lemma PassedAgreesExactly(cps: seq<Checkpoint>, tier1: seq<Tier1>, judging: bool, answers: nat -> Judgement, i: nat)
    requires i < |cps| == |tier1| && AreFractions(tier1) && tier1[i].Graded?
    ensures |Run(cps, tier1, judging, answers, |cps|).results| == |cps|
    ensures var r := Run(cps, tier1, judging, answers, |cps|).results[i];
            var score := if judging then JudgedScore(tier1, answers, i) else tier1[i].score;
            r.passed == tier1[i].passed <==> (tier1[i].passed <==> score > 0.0)
  {
    ScoreIsCapped(cps, tier1, judging, answers, i);
    if judging {
      JudgedScoreIsForeseen(cps, tier1, answers, i);
    }
  }

  // -- the total ---------------------------------------------------------------------------------------------

  function Errors(tier1: seq<Tier1>): seq<InfraError> {
    if tier1 == [] then []
    else (if tier1[0].Ungraded? then [tier1[0].error] else []) + Errors(tier1[1..])
  }

  lemma {:induction false} ErrorsAreTheVerifiers(results: seq<CheckpointResult>, tier1: seq<Tier1>)
    requires |results| == |tier1|
    requires forall i | 0 <= i < |results| ::
               results[i].infra == if tier1[i].Ungraded? then Some(tier1[i].error) else None
    ensures InfraErrors(results) == Errors(tier1)
  {
    if results != [] {
      ErrorsAreTheVerifiers(results[1..], tier1[1..]);
    }
  }

  lemma {:induction false} ErrorsAre(tier1: seq<Tier1>)
    ensures Errors(tier1) != [] <==> exists t <- tier1 :: t.Ungraded?
    ensures Errors(tier1) != [] ==>
              exists i | 0 <= i < |tier1| ::
                tier1[i] == Ungraded(Errors(tier1)[0]) && forall j | 0 <= j < i :: tier1[j].Graded?
  {
    if tier1 != [] {
      ErrorsAre(tier1[1..]);
      assert tier1 == [tier1[0]] + tier1[1..];
      if tier1[0].Graded? && Errors(tier1[1..]) != [] {
        var i :| 0 <= i < |tier1[1..]| && tier1[1..][i] == Ungraded(Errors(tier1[1..])[0])
                 && forall j | 0 <= j < i :: tier1[1..][j].Graded?;
        assert tier1[i + 1] == Ungraded(Errors(tier1)[0]);
        assert forall j | 0 <= j < i + 1 :: tier1[j].Graded?;
      }
    }
  }

  function Outcome(cps: seq<Checkpoint>, tier1: seq<Tier1>, judging: bool, answers: nat -> Judgement,
                   artifacts: seq<Artifact>, grounding: bool): Verification
    requires |cps| == |tier1|
  {
    Conclude(Run(cps, tier1, judging, answers, |cps|).results, artifacts, grounding)
  }

  lemma OutcomeErrors(cps: seq<Checkpoint>, tier1: seq<Tier1>, judging: bool, answers: nat -> Judgement)
    requires |cps| == |tier1| && AreFractions(tier1)
    ensures InfraErrors(Run(cps, tier1, judging, answers, |cps|).results) == Errors(tier1)
  {
    var results := Run(cps, tier1, judging, answers, |cps|).results;
    RunLength(cps, tier1, judging, answers, |cps|);
    forall i | 0 <= i < |results|
      ensures results[i].infra == if tier1[i].Ungraded? then Some(tier1[i].error) else None
    {
      ScoreIsCapped(cps, tier1, judging, answers, i);
    }
    ErrorsAreTheVerifiers(results, tier1);
  }

  // A run is flagged exactly when some verifier reached no verdict, with the first such error; its total
  // is then nothing and no gate is applied. A failure of the judge alone never flags a run.
  lemma FlagIsTheFirstMissingVerdict(cps: seq<Checkpoint>, tier1: seq<Tier1>, judging: bool, answers: nat -> Judgement,
                                     artifacts: seq<Artifact>, grounding: bool)
    requires |cps| == |tier1| && AreFractions(tier1)
    ensures var v := Outcome(cps, tier1, judging, answers, artifacts, grounding);
            && (v.infra.Some? <==> exists t <- tier1 :: t.Ungraded?)
            && (v.infra.Some? ==> v.total == 0.0 && v.gates == [])
            && (v.infra.Some? ==> exists i | 0 <= i < |tier1| ::
                  tier1[i] == Ungraded(v.infra.value) && forall j | 0 <= j < i :: tier1[j].Graded?)
  {
    OutcomeErrors(cps, tier1, judging, answers);
    ErrorsAre(tier1);
  }

  lemma {:induction false} PairsAre(results: seq<CheckpointResult>)
    ensures |Pairs(results)| == |results|
    ensures forall i | 0 <= i < |results| :: Pairs(results)[i] == Weighted(results[i].score, results[i].weight)
  {
    if results != [] {
      PairsAre(results[1..]);
    }
  }

  lemma {:induction false} InvalidAre(artifacts: seq<Artifact>)
    ensures Invalid(artifacts) != [] <==> exists a <- artifacts :: !a.valid
  {
    if artifacts != [] {
      InvalidAre(artifacts[1..]);
      assert artifacts == [artifacts[0]] + artifacts[1..];
    }
  }

  // The gate lists the kinds of the invalid artifacts, one by one and in their order.
  lemma {:induction false} InvalidOfConcat(a: seq<Artifact>, b: seq<Artifact>)
    ensures Invalid(a + b) == Invalid(a) + Invalid(b)
  {
    if a == [] {
      assert a + b == b;
    } else {
      assert (a + b)[1..] == a[1..] + b;
      InvalidOfConcat(a[1..], b);
      assert Invalid(a + b) == (if a[0].valid then [] else [a[0].kind]) + (Invalid(a[1..]) + Invalid(b));
    }
  }

  lemma InvalidOfOne(x: Artifact)
    ensures Invalid([x]) == if x.valid then [] else [x.kind]
  {
    assert [x][1..] == [];
  }

  function WeightAt(cps: seq<Checkpoint>): nat -> real {
    (i: nat) => if i < |cps| then cps[i].weight else 0.0
  }

  function EarnedAt(cps: seq<Checkpoint>, results: seq<CheckpointResult>): nat -> real {
    (i: nat) => if i < |cps| && i < |results| then results[i].score * cps[i].weight else 0.0
  }

  // Where every verifier reached a verdict, the total is the mean of the scores by the declared weights,
  // unless citations are to be grounded and an artifact is invalid: then there is no total, and the gate
  // says which artifacts failed.
  lemma TotalIsWeightedMean(cps: seq<Checkpoint>, tier1: seq<Tier1>, judging: bool, answers: nat -> Judgement,
                            artifacts: seq<Artifact>, grounding: bool)
    requires |cps| == |tier1| && AreFractions(tier1) && forall t <- tier1 :: t.Graded?
    ensures var v := Outcome(cps, tier1, judging, answers, artifacts, grounding);
            var weight := Sum(|cps|, WeightAt(cps));
            && v.results == Run(cps, tier1, judging, answers, |cps|).results
            && (grounding && (exists a <- artifacts :: !a.valid) ==> v.total == 0.0 && v.gates == [Invalid(artifacts)])
            && (!grounding || (forall a <- artifacts :: a.valid) ==>
                  && v.gates == []
                  && (weight > 0.0 ==> v.total == Sum(|cps|, EarnedAt(cps, v.results)) / weight)
                  && (weight <= 0.0 ==> v.total == 0.0))
  {
    var results := Run(cps, tier1, judging, answers, |cps|).results;
    OutcomeErrors(cps, tier1, judging, answers);
    ErrorsAre(tier1);
    InvalidAre(artifacts);
    RunLength(cps, tier1, judging, answers, |cps|);
    forall i | 0 <= i < |cps|
      ensures results[i].weight == cps[i].weight
    {
      ScoreIsCapped(cps, tier1, judging, answers, i);
    }
    MeanByDeclaredWeights(cps, results);
  }

  lemma MeanByDeclaredWeights(cps: seq<Checkpoint>, results: seq<CheckpointResult>)
    requires |results| == |cps| && forall i | 0 <= i < |cps| :: results[i].weight == cps[i].weight
    ensures var weight := Sum(|cps|, WeightAt(cps));
            && (weight > 0.0 ==> WeightedMean(Pairs(results)) == Sum(|cps|, EarnedAt(cps, results)) / weight)
            && (weight <= 0.0 ==> WeightedMean(Pairs(results)) == 0.0)
  {
    PairsAre(results);
    SameSums(|cps|, WeightOf(Pairs(results)), WeightAt(cps));
    SameSums(|cps|, ProductOf(Pairs(results)), EarnedAt(cps, results));
    MeanIsQuotient(Pairs(results));
  }

  // The total of a run is a fraction.
  lemma TotalIsFraction(cps: seq<Checkpoint>, tier1: seq<Tier1>, judging: bool, answers: nat -> Judgement,
                        artifacts: seq<Artifact>, grounding: bool)
    requires |cps| == |tier1| && AreFractions(tier1) && IsJudge(answers) && forall cp <- cps :: cp.weight >= 0.0
    ensures 0.0 <= Outcome(cps, tier1, judging, answers, artifacts, grounding).total <= 1.0
  {
    var results := Run(cps, tier1, judging, answers, |cps|).results;
    RunLength(cps, tier1, judging, answers, |cps|);
    PairsAre(results);
    forall i | 0 <= i < |results|
      ensures 0.0 <= Pairs(results)[i].score <= 1.0 && Pairs(results)[i].weight >= 0.0
    {
      ScoreIsCapped(cps, tier1, judging, answers, i);
      assert cps[i] in cps && tier1[i] in tier1;
    }
    MeanIsFraction(Pairs(results));
  }

  // The judge can only lower the total: whatever it answers, the run totals no more than it would have
  // without a judge.
  lemma JudgeOnlyLowersTheTotal(cps: seq<Checkpoint>, tier1: seq<Tier1>, answers: nat -> Judgement,
                                silent: nat -> Judgement, artifacts: seq<Artifact>, grounding: bool)
    requires |cps| == |tier1| && AreFractions(tier1) && forall cp <- cps :: cp.weight >= 0.0
    ensures Outcome(cps, tier1, true, answers, artifacts, grounding).total
         <= Outcome(cps, tier1, false, silent, artifacts, grounding).total
    ensures Outcome(cps, tier1, true, answers, artifacts, grounding).infra
         == Outcome(cps, tier1, false, silent, artifacts, grounding).infra
  {
    var judged := Run(cps, tier1, true, answers, |cps|).results;
    var alone := Run(cps, tier1, false, silent, |cps|).results;
    OutcomeErrors(cps, tier1, true, answers);
    OutcomeErrors(cps, tier1, false, silent);
    RunLength(cps, tier1, true, answers, |cps|);
    RunLength(cps, tier1, false, silent, |cps|);
    PairsAre(judged);
    PairsAre(alone);
    forall i | 0 <= i < |cps|
      ensures judged[i].score <= alone[i].score && judged[i].weight == alone[i].weight && judged[i].weight >= 0.0
    {
      ScoreIsCapped(cps, tier1, true, answers, i);
      ScoreIsCapped(cps, tier1, false, silent, i);
      assert cps[i] in cps;
    }
    MeanIsMonotone(Pairs(judged), Pairs(alone));
  }

  // The judge failing on every checkpoint it is asked about scores the run nothing and leaves it
  // unflagged.
  lemma FailedJudgeScoresNothingUnflagged(cps: seq<Checkpoint>, tier1: seq<Tier1>, answers: nat -> Judgement,
                                          artifacts: seq<Artifact>, grounding: bool)
    requires |cps| == |tier1| && AreFractions(tier1) && forall t <- tier1 :: t.Graded?
    requires answers(0).JudgeFailed?
    ensures var v := Outcome(cps, tier1, true, answers, artifacts, grounding); v.total == 0.0 && v.infra.None?
  {
    var results := Run(cps, tier1, true, answers, |cps|).results;
    RunLength(cps, tier1, true, answers, |cps|);
    FlagIsTheFirstMissingVerdict(cps, tier1, true, answers, artifacts, grounding);
    PairsAre(results);
    forall i | 0 <= i < |cps|
      ensures Pairs(results)[i].score == 0.0
    {
      assert tier1[i] in tier1;
      FailsFromTheStart(cps, tier1, answers, i + 1);
      NoScoreAfterFailure(cps, tier1, answers, i);
    }
    if TotalWeight(Pairs(results)) > 0.0 {
      MeanOfSameScore(Pairs(results), 0.0);
    }
  }

  lemma {:induction false} FailsFromTheStart(cps: seq<Checkpoint>, tier1: seq<Tier1>, answers: nat -> Judgement, n: nat)
    requires 0 < n <= |cps| == |tier1| && (forall t <- tier1 :: t.Graded?) && answers(0).JudgeFailed?
    ensures Run(cps, tier1, true, answers, n).failure.Some?
  {
    assert tier1[n - 1] in tier1;
    if n > 1 {
      FailsFromTheStart(cps, tier1, answers, n - 1);
    } else {
      assert Run(cps, tier1, true, answers, 0) == START;
    }
  }
}

// The two-tier scoring run: every checkpoint is verified, the judge may lower what the verifier gave,
// and a failure of the infrastructure never becomes a number.
module Runner {
  import opened Wrappers
  import opened ScoreContract
  import ScorerGuard

  datatype Checkpoint = Checkpoint(name: string, weight: real)

  datatype InfraError = InfraError(cause: ScorerGuard.Cause, detail: string)

  // What Tier 1 made of a checkpoint; `passed` is what the verifier declared, or else what its score says.
  datatype Tier1 = Graded(score: real, passed: bool, detail: string) | Ungraded(error: InfraError)

  // The result of a verifier is what the guard lets through; `explain` words an error.
  function Tier1Of(guarded: ScorerGuard.Guarded, show: ScorerGuard.Show, explain: ScorerGuard.Cause -> string): Tier1
    requires guarded.Verdict? ==> "score" in guarded.fields && guarded.fields["score"].Number?
    requires guarded.Verdict? ==> "passed" in guarded.fields && guarded.fields["passed"].Bool?
  {
    match guarded
    case Verdict(fields) => Graded(fields["score"].n, fields["passed"].b, ScorerGuard.DetailOf(fields, show))
    case NoVerdict(cause) => Ungraded(InfraError(cause, explain(cause)))
  }

  // What one call of the judge comes to.
  datatype Judgement = Judged(score: real) | NotApplicable | JudgeFailed(why: string)

  datatype Note = Text(text: string) | Capped(grep: real, judge: real, final: real) | Sentinel(why: string)

  datatype CheckpointResult = CheckpointResult(
    name: string,
    weight: real,
    passed: bool,
    score: real,
    detail: seq<Note>,
    infra: Option<InfraError>)

  datatype Artifact = Artifact(kind: string, valid: bool)

  datatype Verification = Verification(
    results: seq<CheckpointResult>,
    total: real,
    gates: seq<seq<string>>,
    infra: Option<InfraError>)

  // The judge, whose answers nobody knows before asking. `calls` lists which checkpoints it was asked
  // about.
  class Judge {
    const answers: nat -> Judgement
    var calls: seq<nat>

    constructor (answers: nat -> Judgement)
      ensures this.answers == answers && calls == []
    {
      this.answers := answers;
      calls := [];
    }

    method Evaluate(checkpoint: nat) returns (j: Judgement)
      modifies this
      ensures calls == old(calls) + [checkpoint] && j == answers(|old(calls)|)
    {
      j := answers(|calls|);
      calls := calls + [checkpoint];
    }
  }

  // The answers of a judge that has been asked `asked` times before.
  function From(answers: nat -> Judgement, asked: nat): nat -> Judgement {
    (n: nat) => answers(asked + n)
  }

  // -- the run as a specification --------------------------------------------------------------------

  // How far a run has come.
  datatype Progress = Progress(results: seq<CheckpointResult>, calls: seq<nat>, failure: Option<string>)

  const START := Progress([], [], None)

  function NotesOf(detail: string): seq<Note> {
    if detail == "" then [] else [Text(detail)]
  }

  function InfraResult(cp: Checkpoint, error: InfraError): CheckpointResult {
    CheckpointResult(cp.name, cp.weight, false, 0.0, NotesOf(error.detail), Some(error))
  }

  function Scored(cp: Checkpoint, score: real, detail: seq<Note>): CheckpointResult {
    CheckpointResult(cp.name, cp.weight, score > 0.0, score, detail, None)
  }

  // One checkpoint: no verdict is passed on as it is, a failed judge zeroes it, a judgement caps it.
  function Advance(p: Progress, cp: Checkpoint, tier1: Tier1, judging: bool, answers: nat -> Judgement): Progress {
    if tier1.Ungraded? then p.(results := p.results + [InfraResult(cp, tier1.error)])
    else
      var notes := NotesOf(tier1.detail);
      if !judging then p.(results := p.results + [Scored(cp, tier1.score, notes)])
      else if p.failure.Some? then p.(results := p.results + [Scored(cp, 0.0, notes + [Sentinel(p.failure.value)])])
      else
        var calls := p.calls + [|p.results|];
        match answers(|p.calls|)
        case Judged(j) =>
          var final := if j < tier1.score then j else tier1.score;
          Progress(p.results + [Scored(cp, final, notes + [Capped(tier1.score, j, final)])], calls, None)
        case NotApplicable => Progress(p.results + [Scored(cp, tier1.score, notes)], calls, None)
        case JudgeFailed(why) => Progress(p.results + [Scored(cp, 0.0, notes + [Sentinel(why)])], calls, Some(why))
  }

  // The first `n` checkpoints.
  function Run(cps: seq<Checkpoint>, tier1: seq<Tier1>, judging: bool, answers: nat -> Judgement, n: nat): Progress
    requires n <= |cps| == |tier1|
  {
    if n == 0 then START
    else Advance(Run(cps, tier1, judging, answers, n - 1), cps[n - 1], tier1[n - 1], judging, answers)
  }

  // The run has come to `p` after `n` checkpoints.
  ghost predicate HasReached(p: Progress, cps: seq<Checkpoint>, tier1: seq<Tier1>, judging: bool,
                             answers: nat -> Judgement, n: nat) {
    && n <= |cps| == |tier1|
    && forall all: seq<Checkpoint> :: all == cps ==> p == Run(all, tier1, judging, answers, n)
  }

  lemma ReachesStart(cps: seq<Checkpoint>, tier1: seq<Tier1>, judging: bool, answers: nat -> Judgement)
    requires |cps| == |tier1|
    ensures HasReached(START, cps, tier1, judging, answers, 0)
  {
  }

  lemma ReachesNext(p: Progress, cps: seq<Checkpoint>, tier1: seq<Tier1>, judging: bool, answers: nat -> Judgement,
                    n: nat)
    requires HasReached(p, cps, tier1, judging, answers, n) && n < |cps|
    ensures HasReached(Advance(p, cps[n], tier1[n], judging, answers), cps, tier1, judging, answers, n + 1)
  {
    assert p == Run(cps, tier1, judging, answers, n);
  }

  lemma HasReachedTheEnd(p: Progress, cps: seq<Checkpoint>, tier1: seq<Tier1>, judging: bool, answers: nat -> Judgement)
    requires HasReached(p, cps, tier1, judging, answers, |cps|)
    ensures p == Run(cps, tier1, judging, answers, |cps|)
  {
  }

  function InfraErrors(results: seq<CheckpointResult>): seq<InfraError> {
    if results == [] then []
    else (if results[0].infra.Some? then [results[0].infra.value] else []) + InfraErrors(results[1..])
  }

  function Pairs(results: seq<CheckpointResult>): seq<Weighted> {
    if results == [] then [] else [Weighted(results[0].score, results[0].weight)] + Pairs(results[1..])
  }

  function Invalid(artifacts: seq<Artifact>): seq<string> {
    if artifacts == [] then []
    else (if artifacts[0].valid then [] else [artifacts[0].kind]) + Invalid(artifacts[1..])
  }

  // A run with an infrastructure error has no total; the gate for grounded citations zeroes one.
  function Conclude(results: seq<CheckpointResult>, artifacts: seq<Artifact>, grounding: bool): Verification {
    var errors := InfraErrors(results);
    if errors != [] then Verification(results, 0.0, [], Some(errors[0]))
    else if grounding && Invalid(artifacts) != [] then Verification(results, 0.0, [Invalid(artifacts)], None)
    else Verification(results, WeightedMean(Pairs(results)), [], None)
  }

  // -- the run -------------------------------------------------------------------------------------------

  class CheckpointRunner {
    const checkpoints: seq<Checkpoint>
    const grounding: bool
    const judge: Judge?

    constructor (checkpoints: seq<Checkpoint>, grounding: bool, judge: Judge?)
      ensures this.checkpoints == checkpoints && this.grounding == grounding && this.judge == judge
    {
      this.checkpoints := checkpoints;
      this.grounding := grounding;
      this.judge := judge;
    }

    // `tier1` holds what running the verifiers came to. The judge is asked only where there is both a
    // judge and output of the agent to judge.
    method RunAll(tier1: seq<Tier1>, artifacts: seq<Artifact>, agentOutput: string) returns (v: Verification)
      requires |tier1| == |checkpoints|
      modifies judge
      ensures judge == null || agentOutput == "" ==>
                v == Conclude(Run(checkpoints, tier1, false, _ => NotApplicable, |checkpoints|).results,
                              artifacts, grounding)
      ensures judge != null && agentOutput != "" ==>
                var run := Run(checkpoints, tier1, true, From(judge.answers, |old(judge.calls)|), |checkpoints|);
                v == Conclude(run.results, artifacts, grounding) && judge.calls == old(judge.calls) + run.calls
      ensures judge != null && agentOutput == "" ==> judge.calls == old(judge.calls)
    {
      var results;
      if judge != null && agentOutput != "" {
        ghost var answers := From(judge.answers, |judge.calls|);
        results := RunCheckpoints(tier1, true, answers);
      } else {
        results := RunCheckpoints(tier1, false, _ => NotApplicable);
      }
      v := Total(results, artifacts);
    }

    // The loop over the checkpoints.
    method RunCheckpoints(tier1: seq<Tier1>, judging: bool, ghost answers: nat -> Judgement)
      returns (results: seq<CheckpointResult>)
      requires |tier1| == |checkpoints|
      requires judging ==> judge != null && forall n: nat :: answers(n) == judge.answers(|judge.calls| + n)
      modifies judge
      ensures results == Run(checkpoints, tier1, judging, answers, |checkpoints|).results
      ensures judge != null ==>
                judge.calls == old(judge.calls)
                  + (if judging then Run(checkpoints, tier1, judging, answers, |checkpoints|).calls else [])
    {
      results := [];
      var failure: Option<string> := None;
      ghost var p := START;
      ReachesStart(checkpoints, tier1, judging, answers);
      for i := 0 to |checkpoints|
        invariant HasReached(p, checkpoints, tier1, judging, answers, i)
        invariant results == p.results && |results| == i && failure == p.failure
        invariant judge != null ==> judge.calls == old(judge.calls) + (if judging then p.calls else [])
      {
        var result;
        result, failure, p := RunOne(i, tier1, judging, failure, p, answers);
        results := results + [result];
      }
      HasReachedTheEnd(p, checkpoints, tier1, judging, answers);
    }

    // One turn of the loop, which takes the run from `p` to `q`.
    method RunOne(i: nat, tier1: seq<Tier1>, judging: bool, failure: Option<string>, ghost p: Progress,
                  ghost answers: nat -> Judgement)
      returns (result: CheckpointResult, failure': Option<string>, ghost q: Progress)
      requires HasReached(p, checkpoints, tier1, judging, answers, i) && i < |checkpoints|
      requires |p.results| == i && p.failure == failure
      requires judging ==> judge != null && judge.answers(|judge.calls|) == answers(|p.calls|)
      modifies judge
      ensures HasReached(q, checkpoints, tier1, judging, answers, i + 1)
      ensures q.results == p.results + [result] && q.failure == failure' && p.calls <= q.calls
      ensures judge != null ==> judge.calls == old(judge.calls) + (if judging then q.calls[|p.calls|..] else [])
    {
      var cp := checkpoints[i];
      failure' := failure;
      q := Advance(p, cp, tier1[i], judging, answers);
      ReachesNext(p, checkpoints, tier1, judging, answers, i);
      if tier1[i].Ungraded? {
        return InfraResult(cp, tier1[i].error), failure', q;
      }
      var grep := tier1[i].score;
      var detail := NotesOf(tier1[i].detail);
      var final := grep;
      if judging {
        var judgement := NotApplicable;
        if failure'.None? {
          judgement := judge.Evaluate(i);
          if judgement.JudgeFailed? {
            failure' := Some(judgement.why);
          }
        }
        if failure'.Some? {
          detail := detail + [Sentinel(failure'.value)];
          final := 0.0;
        } else if judgement.Judged? {
          final := if judgement.score < grep then judgement.score else grep;
          detail := detail + [Capped(grep, judgement.score, final)];
        }
      }
      result := Scored(cp, final, detail);
    }

    method Total(results: seq<CheckpointResult>, artifacts: seq<Artifact>) returns (v: Verification)
      ensures v == Conclude(results, artifacts, grounding)
    {
      var errors := InfraErrors(results);
      var total := if errors != [] then 0.0 else WeightedMean(Pairs(results));
      var gates: seq<seq<string>> := [];
      if errors == [] && grounding {
        var failed := Invalid(artifacts);
        if failed != [] {
          gates := gates + [failed];
          total := 0.0;
        }
      }
      v := Verification(results, total, gates, if errors != [] then Some(errors[0]) else None);
    }
  }
}

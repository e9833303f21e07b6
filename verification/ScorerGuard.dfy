// What counts as a verdict: the guards between what a verifier prints and a score.
module ScorerGuard {
  import opened Wrappers

  // A value as the JSON parser returns it. Numbers that are not finite are values too.
  datatype Value =
    | Null | Bool(b: bool) | Number(n: real) | NotFinite | Text(text: string)
    | List(items: seq<Value>) | Dict(fields: map<string, Value>)

  // What is left of the standard output once blanks are stripped and it is parsed.
  datatype Output = Empty | NotJson | Json(value: Value)

  datatype Cause =
    | HarnessImportFailure | EmptyOutput | MalformedOutput | NoScoreField | NonNumericScore
    | VerifierCrash(signature: string)

  datatype Guarded = Verdict(fields: map<string, Value>) | NoVerdict(cause: Cause)

  // How a value that is not a text is written out as one.
  type Show = Value -> string

  const SCORE_EPSILON: real := 0.000001
  const INFRA_SENTINEL := "VERIFIER_INFRA_ERROR"
  const HARNESS_IMPORT_FAILURE := "No module named 'eb_verify"

  predicate Contains(text: string, part: string) {
    part <= text || (text != "" && Contains(text[1..], part))
  }

  function ShowText(v: Value, show: Show): string {
    if v.Text? then v.text else show(v)
  }

  function InfraSignature(detail: string): Option<string> {
    if Contains(detail, INFRA_SENTINEL) then Some(INFRA_SENTINEL)
    else if Contains(detail, HARNESS_IMPORT_FAILURE) then Some(HARNESS_IMPORT_FAILURE)
    else None
  }

  function DetailOf(fields: map<string, Value>, show: Show): string {
    if "detail" in fields then ShowText(fields["detail"], show) else ""
  }

  predicate IsValidScore(v: Value) {
    v.Number? && -SCORE_EPSILON <= v.n <= 1.0 + SCORE_EPSILON
  }

  function Clamp(x: real): real {
    if x < 0.0 then 0.0 else if x > 1.0 then 1.0 else x
  }

  // `part` stands somewhere in `text`.
  predicate OccursIn(part: string, text: string) {
    exists i | 0 <= i <= |text| :: part <= text[i..]
  }

  lemma {:induction false} ContainsIsOccurrence(text: string, part: string)
    ensures Contains(text, part) <==> OccursIn(part, text)
  {
    assert text[0..] == text;
    if text != "" {
      var rest := text[1..];
      ContainsIsOccurrence(rest, part);
      assert forall i | 0 <= i <= |rest| :: rest[i..] == text[i + 1..];
      assert forall i | 0 < i <= |text| :: text[i..] == rest[i - 1..];
    }
  }

  lemma NothingOccursInNothing()
    ensures !OccursIn("VERIFIER_INFRA_ERROR", "") && !OccursIn("No module named 'eb_verify", "")
  {
    assert |"VERIFIER_INFRA_ERROR"| > 0 && |"No module named 'eb_verify"| > 0;
  }

  // What a detail has to say to count as a failure of the infrastructure.
  lemma SignatureIs(detail: string)
    ensures InfraSignature(detail) ==
            if OccursIn("VERIFIER_INFRA_ERROR", detail) then Some("VERIFIER_INFRA_ERROR")
            else if OccursIn("No module named 'eb_verify", detail) then Some("No module named 'eb_verify")
            else None
  {
    ContainsIsOccurrence(detail, INFRA_SENTINEL);
    ContainsIsOccurrence(detail, HARNESS_IMPORT_FAILURE);
  }

  // -- one checkpoint ------------------------------------------------------------------------------

  predicate ReachedVerdict(stderr: string, output: Output, show: Show) {
    && !Contains(stderr, HARNESS_IMPORT_FAILURE)
    && output.Json? && output.value.Dict? && "score" in output.value.fields
    && IsValidScore(output.value.fields["score"]) && InfraSignature(DetailOf(output.value.fields, show)).None?
  }

  // The first check that fails names the cause.
  ghost predicate IsCause(cause: Cause, stderr: string, output: Output, show: Show) {
    if Contains(stderr, HARNESS_IMPORT_FAILURE) then cause == HarnessImportFailure
    else if output.Empty? then cause == EmptyOutput
    else if output.NotJson? || !output.value.Dict? then cause == MalformedOutput
    else if "score" !in output.value.fields then cause == NoScoreField
    else if !IsValidScore(output.value.fields["score"]) then cause == NonNumericScore
    else
      var signature := InfraSignature(DetailOf(output.value.fields, show));
      signature.Some? && cause == VerifierCrash(signature.value)
  }

  // A verdict is the parsed object with its score brought into [0, 1] and its `passed` decided; every
  // other field is as the verifier wrote it.
  ghost predicate IsVerdictOf(verdict: map<string, Value>, fields: map<string, Value>)
    requires "score" in fields && IsValidScore(fields["score"])
  {
    && verdict.Keys == fields.Keys + {"passed"}
    && (forall k <- fields.Keys - {"score", "passed"} :: verdict[k] == fields[k])
    && verdict["score"].Number? && 0.0 <= verdict["score"].n <= 1.0
    && (0.0 <= fields["score"].n <= 1.0 ==> verdict["score"] == fields["score"])
    && (fields["score"].n < 0.0 ==> verdict["score"].n == 0.0)
    && (fields["score"].n > 1.0 ==> verdict["score"].n == 1.0)
    && verdict["passed"]
       == (if "passed" in fields && fields["passed"].Bool? then fields["passed"] else Bool(verdict["score"].n > 0.0))
  }

  ghost predicate IsGuarded(stderr: string, output: Output, show: Show, r: Guarded) {
    && (r.Verdict? <==> ReachedVerdict(stderr, output, show))
    && (r.Verdict? ==> IsVerdictOf(r.fields, output.value.fields))
    && (r.NoVerdict? ==> IsCause(r.cause, stderr, output, show))
  }

  method GuardCheckpointVerdict(stderr: string, output: Output, show: Show) returns (r: Guarded)
    ensures IsGuarded(stderr, output, show, r)
  {
    if Contains(stderr, HARNESS_IMPORT_FAILURE) { return NoVerdict(HarnessImportFailure); }
    if output.Empty? { return NoVerdict(EmptyOutput); }
    if output.NotJson? { return NoVerdict(MalformedOutput); }
    if !output.value.Dict? { return NoVerdict(MalformedOutput); }
    var verdict := output.value.fields;
    if "score" !in verdict { return NoVerdict(NoScoreField); }
    if !IsValidScore(verdict["score"]) { return NoVerdict(NonNumericScore); }
    var signature := InfraSignature(DetailOf(verdict, show));
    if signature.Some? { return NoVerdict(VerifierCrash(signature.value)); }
    var score := Clamp(verdict["score"].n);
    verdict := verdict["score" := Number(score)];
    var passed := if "passed" in verdict && verdict["passed"].Bool? then verdict["passed"].b else score > 0.0;
    verdict := verdict["passed" := Bool(passed)];
    return Verdict(verdict);
  }

  // The texts that a detail may not hold, in a detail as it is shown.
  predicate SaysNothingBroke(fields: map<string, Value>, show: Show) {
    "detail" in fields ==>
      var detail := if fields["detail"].Text? then fields["detail"].text else show(fields["detail"]);
      !OccursIn("VERIFIER_INFRA_ERROR", detail) && !OccursIn("No module named 'eb_verify", detail)
  }

  lemma SaysNothingIs(fields: map<string, Value>, show: Show)
    ensures SaysNothingBroke(fields, show) <==> InfraSignature(DetailOf(fields, show)).None?
  {
    SignatureIs(DetailOf(fields, show));
    NothingOccursInNothing();
  }

  // A verdict is reached exactly where the errors do not show that the harness could not be imported and the
  // output is an object with a score that is a number from 0 to 1, give or take a millionth, and no report of
  // anything broken; the score is then brought into [0, 1].
  lemma VerdictIsExact(stderr: string, output: Output, show: Show, r: Guarded)
    requires IsGuarded(stderr, output, show, r)
    ensures r.Verdict? <==>
            && !OccursIn("No module named 'eb_verify", stderr) && output.Json? && output.value.Dict?
            && var fields := output.value.fields;
               && "score" in fields && fields["score"].Number? && -0.000001 <= fields["score"].n <= 1.000001
               && SaysNothingBroke(fields, show)
    ensures r.Verdict? ==>
              var score := output.value.fields["score"].n;
              r.fields["score"] == Number(if score < 0.0 then 0.0 else if score > 1.0 then 1.0 else score)
  {
    ContainsIsOccurrence(stderr, HARNESS_IMPORT_FAILURE);
    if output.Json? && output.value.Dict? {
      SaysNothingIs(output.value.fields, show);
    }
  }

  // Without a verdict the cause is the first thing that is wrong.
  lemma CauseIs(stderr: string, output: Output, show: Show, r: Guarded)
    requires IsGuarded(stderr, output, show, r) && r.NoVerdict?
    ensures OccursIn("No module named 'eb_verify", stderr) <==> r.cause == HarnessImportFailure
    ensures !OccursIn("No module named 'eb_verify", stderr) ==>
              && (r.cause == EmptyOutput <==> output.Empty?)
              && (r.cause == MalformedOutput <==> output.NotJson? || (output.Json? && !output.value.Dict?))
              && (r.cause == NoScoreField <==>
                    output.Json? && output.value.Dict? && "score" !in output.value.fields)
              && (r.cause == NonNumericScore <==>
                    && output.Json? && output.value.Dict? && "score" in output.value.fields
                    && var score := output.value.fields["score"];
                       !score.Number? || score.n < -0.000001 || score.n > 1.000001)
    ensures r.cause.VerifierCrash? ==>
              output.Json? && output.value.Dict? && !SaysNothingBroke(output.value.fields, show)
              && r.cause.signature in {"VERIFIER_INFRA_ERROR", "No module named 'eb_verify"}
  {
    ContainsIsOccurrence(stderr, HARNESS_IMPORT_FAILURE);
    if output.Json? && output.value.Dict? {
      SaysNothingIs(output.value.fields, show);
    }
  }

  // A verdict that is guarded again is the same verdict.
  lemma GuardIsIdempotent(stderr: string, output: Output, show: Show, r: Guarded, again: Guarded)
    requires IsGuarded(stderr, output, show, r) && r.Verdict?
    requires IsGuarded(stderr, Json(Dict(r.fields)), show, again)
    ensures again == r
  {
    assert "score" in r.fields && "passed" in r.fields;
    assert "detail" in r.fields <==> "detail" in output.value.fields;
    assert "detail" in r.fields ==> r.fields["detail"] == output.value.fields["detail"];
    forall k <- r.fields.Keys
      ensures k in again.fields && again.fields[k] == r.fields[k]
    {
      assert k != "score" && k != "passed" ==> k in r.fields.Keys - {"score", "passed"};
    }
    assert again.fields.Keys == r.fields.Keys;
    assert again.fields == r.fields;
  }

  // -- all checkpoints at once ---------------------------------------------------------------------

  datatype Reason =
    | EmptyVerifierOutput | MalformedVerifierOutput | VerifierReportedError | NoCheckpointsRun
    | VerifierDidNotRun | CrashReported(signature: string)

  datatype Aggregate = Scores(scores: Value) | Infra(reason: Reason) | Raises

  const ATTESTATION := "verifier_ran"

  predicate IsTruthy(v: Value) {
    match v
    case Null => false
    case Bool(b) => b
    case Number(n) => n != 0.0
    case NotFinite => true
    case Text(text) => text != ""
    case List(items) => items != []
    case Dict(fields) => fields != map[]
  }

  lemma NothingIsTruthy(v: Value)
    ensures !IsTruthy(v) <==>
            v == Null || v == Bool(false) || v == Number(0.0) || v == Text("") || v == List([]) || v == Dict(map[])
  {
  }

  function Field(fields: map<string, Value>, key: string): Value {
    if key in fields then fields[key] else Null
  }

  predicate Attests(cp: Value) {
    cp.Dict? && Field(cp.fields, ATTESTATION) == Bool(true)
  }

  // A checkpoint that may be scored: it attests that its verifier ran, declares no failure of the
  // harness, and carries no score or a valid one.
  predicate IsSound(cp: Value, show: Show) {
    cp.Dict? ==>
      && Attests(cp) && InfraSignature(DetailOf(cp.fields, show)).None?
      && ("score" in cp.fields ==> IsValidScore(cp.fields["score"]))
  }

  // Only `true` attests, a text is searched as it is and anything else as it is shown, and a score may be off
  // by a millionth.
  lemma SoundnessIs(fields: map<string, Value>, show: Show)
    ensures IsSound(Dict(fields), show) <==>
            && "verifier_ran" in fields && fields["verifier_ran"] == Bool(true)
            && SaysNothingBroke(fields, show)
            && ("score" in fields ==> fields["score"].Number? && -0.000001 <= fields["score"].n <= 1.000001)
  {
    SaysNothingIs(fields, show);
  }

  // What is reported of a checkpoint that is not sound: that its verifier did not run, or else that it broke, or
  // else that its score is none.
  lemma FaultIs(fields: map<string, Value>, show: Show, reason: Reason)
    requires IsFault(reason, Dict(fields), show) && !IsSound(Dict(fields), show)
    ensures reason == VerifierDidNotRun <==> !("verifier_ran" in fields && fields["verifier_ran"] == Bool(true))
    ensures reason == MalformedVerifierOutput <==>
            "verifier_ran" in fields && fields["verifier_ran"] == Bool(true) && SaysNothingBroke(fields, show)
    ensures reason != VerifierDidNotRun && reason != MalformedVerifierOutput ==> reason.CrashReported?
  {
    SaysNothingIs(fields, show);
  }

  ghost predicate IsFault(reason: Reason, cp: Value, show: Show)
    requires cp.Dict?
  {
    if !Attests(cp) then reason == VerifierDidNotRun
    else
      var signature := InfraSignature(DetailOf(cp.fields, show));
      reason == if signature.Some? then CrashReported(signature.value) else MalformedVerifierOutput
  }

  // Objects without an error and with something under `checkpoints`.
  predicate HasCheckpoints(output: Output) {
    && output.Json? && output.value.Dict?
    && !IsTruthy(Field(output.value.fields, "error")) && IsTruthy(Field(output.value.fields, "checkpoints"))
  }

  // What iterating over `checkpoints` yields; the characters of a text and the keys of an object are
  // not objects, and a number cannot be iterated over.
  function Iterated(v: Value): Option<seq<Value>> {
    if v.List? then Some(v.items) else if v.Text? || v.Dict? then Some([]) else None
  }

  method GuardVerifierOutput(output: Output, show: Show) returns (r: Aggregate)
    ensures r.Scores? <==> HasCheckpoints(output) && var cps := Iterated(Field(output.value.fields, "checkpoints"));
                           cps.Some? && forall cp <- cps.value :: IsSound(cp, show)
    ensures r.Scores? ==> r.scores == output.value
    ensures r.Raises? <==> HasCheckpoints(output) && Iterated(Field(output.value.fields, "checkpoints")).None?
    ensures r.Infra? && HasCheckpoints(output) ==>
              var cps := Iterated(Field(output.value.fields, "checkpoints")).value;
              exists i | 0 <= i < |cps| ::
                && !IsSound(cps[i], show) && IsFault(r.reason, cps[i], show)
                && forall j | 0 <= j < i :: IsSound(cps[j], show)
    ensures r.Infra? && !HasCheckpoints(output) ==>
              r.reason == if output.Empty? then EmptyVerifierOutput
                          else if output.NotJson? || !output.value.Dict? then MalformedVerifierOutput
                          else if IsTruthy(Field(output.value.fields, "error")) then VerifierReportedError
                          else NoCheckpointsRun
  {
    if output.Empty? { return Infra(EmptyVerifierOutput); }
    if output.NotJson? { return Infra(MalformedVerifierOutput); }
    if !output.value.Dict? { return Infra(MalformedVerifierOutput); }
    var scores := output.value.fields;
    if IsTruthy(Field(scores, "error")) { return Infra(VerifierReportedError); }
    var checkpoints := Field(scores, "checkpoints");
    if !IsTruthy(checkpoints) { return Infra(NoCheckpointsRun); }
    if Iterated(checkpoints).None? { return Raises; }
    var cps := Iterated(checkpoints).value;
    for i := 0 to |cps|
      invariant forall j | 0 <= j < i :: IsSound(cps[j], show)
    {
      var cp := cps[i];
      assert cp in cps;
      if cp.Dict? {
        if !Attests(cp) { return Infra(VerifierDidNotRun); }
        var signature := InfraSignature(DetailOf(cp.fields, show));
        if signature.Some? { return Infra(CrashReported(signature.value)); }
        if "score" in cp.fields && !IsValidScore(cp.fields["score"]) { return Infra(MalformedVerifierOutput); }
      }
    }
    return Scores(output.value);
  }
}

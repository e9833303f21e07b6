// The rules of the two file formats, field by field: exactly which objects are read as a receipt or as a
// specification of a study.
module ReadingRules {
  import opened Wrappers
  import opened Sequences
  import opened Receipts
  import opened StudySpecs

  // -- fields ----------------------------------------------------------------------------

  // A field that is missing and one that is null are the same.
  predicate Has(p: map<Key, Json>, k: Key) {
    k in p && p[k] != JNull
  }

  predicate HasText(p: map<Key, Json>, k: Key) {
    k in p && p[k].JStr? && p[k].s != ""
  }

  predicate MayHaveText(p: map<Key, Json>, k: Key) {
    Has(p, k) ==> HasText(p, k)
  }

  predicate HasOneOf(p: map<Key, Json>, k: Key, texts: set<string>) {
    k in p && p[k].JStr? && p[k].s in texts
  }

  // A whole number; truth values are none here.
  predicate HasCount(p: map<Key, Json>, k: Key) {
    k in p && p[k].JInt? && p[k].i >= 1
  }

  predicate HasVersionOne(p: map<Key, Json>) {
    && SchemaVersion in p
    && (p[SchemaVersion] == JInt(1) || p[SchemaVersion] == JReal(1.0) || p[SchemaVersion] == JBool(true))
  }

  // -- receipts --------------------------------------------------------------------------

  predicate HasTrial(p: map<Key, Json>) {
    && Trial in p && p[Trial].JObj?
    && var t := p[Trial].fields;
       && t.Keys == {StudyId, TaskId, Arm, Repetition, Attempt}
       && HasText(t, StudyId) && HasText(t, TaskId) && HasText(t, Arm)
       && HasCount(t, Repetition) && HasCount(t, Attempt)
  }

  predicate MayHaveScore(p: map<Key, Json>) {
    Has(p, Score) ==>
      (p[Score].JInt? && (p[Score].i == 0 || p[Score].i == 1)) || (p[Score].JReal? && 0.0 <= p[Score].r <= 1.0)
  }

  predicate MayHaveCost(p: map<Key, Json>) {
    Has(p, CostUsd) ==> (p[CostUsd].JInt? && p[CostUsd].i >= 0) || (p[CostUsd].JReal? && p[CostUsd].r >= 0.0)
  }

  predicate MayHaveUsage(p: map<Key, Json>) {
    Has(p, UsageKey) ==>
      && p[UsageKey].JObj?
      && var u := p[UsageKey].fields;
         && u.Keys <= {Source, CostUsd, ModelUsage} && HasText(u, Source) && MayHaveCost(u)
         && ModelUsage in u && u[ModelUsage].JObj? && u[ModelUsage].fields != map[]
  }

  predicate HasArtifacts(p: map<Key, Json>) {
    && Artifacts in p && p[Artifacts].JObj?
    && forall k <- p[Artifacts].fields :: p[Artifacts].fields[k].JStr? && "sha256:" <= p[Artifacts].fields[k].s
  }

  // A valid trial has all its provenance, a score and its usage and no class of failure; any other names its
  // failure and has no score.
  predicate ProvesItsStatus(p: map<Key, Json>) {
    if Get(p, Status) == JStr("valid") then
      && HasText(p, ImageDigest) && HasText(p, ArmGateProof) && HasText(p, TaskHash) && HasText(p, HarnessHash)
      && HasText(p, VerifierHash) && HasText(p, ScoreContract) && Has(p, Score) && Has(p, UsageKey)
      && !Has(p, FailureClass)
    else
      HasText(p, FailureClass) && !Has(p, Score)
  }

  predicate HasReceiptTexts(p: map<Key, Json>) {
    && HasText(p, SpecHash) && HasText(p, TaskManifestHash) && HasText(p, StartedAt) && HasText(p, EndedAt)
    && HasOneOf(p, Status, {"valid", "infra_invalid", "ineligible"})
    && MayHaveText(p, FailureClass) && MayHaveText(p, ImageDigest) && MayHaveText(p, ArmGateProof)
    && MayHaveText(p, TaskHash) && MayHaveText(p, HarnessHash) && MayHaveText(p, VerifierHash)
    && MayHaveText(p, ScoreContract)
  }

  predicate HasReceiptObjects(p: map<Key, Json>) {
    && HasTrial(p) && MayHaveScore(p) && MayHaveUsage(p) && HasArtifacts(p)
    && ToolUse in p && p[ToolUse].JObj?
  }

  lemma TextsAreRules(p: map<Key, Json>)
    ensures HasReceiptTexts(p) <==> HasTexts(p) && IsStatus(Get(p, Status)) && HasOptionalTexts(p)
  {
  }

  lemma TrialIsRule(p: map<Key, Json>)
    ensures HasTrial(p) <==> IsTrialJson(Get(p, Trial))
  {
  }

  lemma ScoreIsRule(p: map<Key, Json>)
    ensures MayHaveScore(p) <==> IsScore(Get(p, Score))
    ensures MayHaveCost(p) <==> IsCost(Get(p, CostUsd))
  {
  }

  lemma UsageIsRule(p: map<Key, Json>)
    ensures MayHaveUsage(p) <==> IsUsageOrNull(Get(p, UsageKey))
  {
    if UsageKey in p && p[UsageKey].JObj? {
      ScoreIsRule(p[UsageKey].fields);
    }
  }

  lemma ArtifactsAreRule(p: map<Key, Json>)
    ensures HasArtifacts(p) <==> AreArtifacts(Get(p, Artifacts))
  {
    if Artifacts in p && p[Artifacts].JObj? {
      var items := p[Artifacts].fields;
      assert forall k <- items :: IsDigest(items[k]) <==> items[k].JStr? && "sha256:" <= items[k].s;
    }
  }

  lemma ProblemIsExact(p: map<Key, Json>)
    ensures Problem(p).None? <==>
            p.Keys <= RECEIPT_KEYS && HasVersionOne(p) && HasReceiptTexts(p) && HasReceiptObjects(p)
  {
    TextsAreRules(p);
    TrialIsRule(p);
    ScoreIsRule(p);
    UsageIsRule(p);
    ArtifactsAreRule(p);
  }

  lemma ProvenanceIsRule(p: map<Key, Json>)
    requires Problem(p).None?
    ensures ProvenanceMatchesStatus(Assemble(p)) <==> ProvesItsStatus(p)
  {
    assert HasOptionalTexts(p) && IsScore(Get(p, Score));
  }

  // An object is read as a receipt exactly if it has no field but the eighteen, is of version 1, and every
  // field is as it has to be for its status.
  lemma ReceiptsAreReadExactly(p: map<Key, Json>)
    ensures FromJson(JObj(p)).Success? <==>
            && (forall k <- p ::
                  k in {SchemaVersion, Trial, SpecHash, TaskManifestHash, Status, FailureClass, ImageDigest,
                        ArmGateProof, TaskHash, HarnessHash, VerifierHash, Score, ScoreContract, UsageKey, ToolUse,
                        Artifacts, StartedAt, EndedAt})
            && HasVersionOne(p) && HasReceiptTexts(p) && HasReceiptObjects(p) && ProvesItsStatus(p)
  {
    ProblemIsExact(p);
    if Problem(p).None? {
      ProvenanceIsRule(p);
    }
  }

  // A number without a point is read as the same number.
  lemma ScoreIsRead(p: map<Key, Json>)
    requires FromJson(JObj(p)).Success? && Has(p, Score)
    ensures var score := FromJson(JObj(p)).value.score;
            score == Some(if p[Score].JInt? then p[Score].i as real else p[Score].r)
  {
    ReceiptsAreReadExactly(p);
  }

  // -- specifications --------------------------------------------------------------------

  // A text that occurs once in a list of texts.
  predicate AreNames(names: seq<Json>) {
    (forall v <- names :: v.JStr? && v.s != "") && forall i, j | 0 <= i < j < |names| :: names[i] != names[j]
  }

  predicate IsArm(v: Json) {
    && v.JObj? && v.fields.Keys <= {Name, CapabilityFingerprint}
    && HasText(v.fields, Name) && HasText(v.fields, CapabilityFingerprint)
  }

  predicate NamesDiffer(arms: seq<Json>) {
    forall i, j | 0 <= i < j < |arms| ::
      arms[i].JObj? && arms[j].JObj? ==> Get(arms[i].fields, Name) != Get(arms[j].fields, Name)
  }

  predicate HasArms(p: map<Key, Json>) {
    Arms in p && p[Arms].JArr? && (forall v <- p[Arms].items :: IsArm(v)) && NamesDiffer(p[Arms].items)
  }

  // The baseline is one of the arms.
  predicate HasBaseline(p: map<Key, Json>) {
    && Arms in p && p[Arms].JArr? && BaselineArm in p && p[BaselineArm].JStr?
    && exists v <- p[Arms].items :: v.JObj? && Get(v.fields, Name) == p[BaselineArm]
  }

  predicate HasTasks(p: map<Key, Json>) {
    TaskIds in p && p[TaskIds].JArr? && p[TaskIds].items != [] && AreNames(p[TaskIds].items)
  }

  predicate HasSpecRules(p: map<Key, Json>) {
    && HasOneOf(p, AttemptPolicyKey, {"all_valid_repetitions", "first_valid_attempt"})
    && HasOneOf(p, TokenSource, {"sdk_model_usage", "provider_native_usage"})
    && HasCount(p, Repetitions) && HasCount(p, MaxAttempts)
    && HasText(p, StudyId) && HasText(p, TaskManifestHash) && HasText(p, Model) && HasText(p, Harness)
    && HasText(p, Revision) && HasText(p, ScoreContract) && HasText(p, PromotionPolicy)
  }

  lemma SpecRulesAre(p: map<Key, Json>)
    ensures HasSpecRules(p) <==>
            && IsPolicyJson(Get(p, AttemptPolicyKey)) && IsTokenSourceJson(Get(p, TokenSource)) && AreSpecTexts(p)
            && IsPositiveInt(Get(p, Repetitions)) && IsPositiveInt(Get(p, MaxAttempts))
  {
  }

  lemma TasksAreRule(p: map<Key, Json>)
    ensures HasTasks(p) <==> AreTasksJson(Get(p, TaskIds))
  {
    if TaskIds in p && p[TaskIds].JArr? {
      assert forall t <- p[TaskIds].items :: IsText(t) <==> t.JStr? && t.s != "";
    }
  }

  lemma ArmsAreRule(p: map<Key, Json>)
    ensures (Arms in p && p[Arms].JArr? && forall v <- p[Arms].items :: IsArm(v)) <==> AreArmsJson(Get(p, Arms))
  {
    if Arms in p && p[Arms].JArr? {
      forall v <- p[Arms].items
        ensures IsArm(v) <==> IsArmJson(v)
      {
      }
    }
  }

  lemma NameOfArm(arms: Json, i: nat)
    requires AreArmsJson(arms) && i < |arms.items|
    ensures arms.items[i].JObj? && JStr(ArmNames(ArmsFromJson(arms))[i]) == Get(arms.items[i].fields, Name)
  {
    assert arms.items[i] in arms.items;
  }

  lemma NamesAreRule(arms: Json)
    requires AreArmsJson(arms)
    ensures NamesDiffer(arms.items) <==> Distinct(ArmNames(ArmsFromJson(arms)))
  {
    var names := ArmNames(ArmsFromJson(arms));
    forall i | 0 <= i < |names|
      ensures arms.items[i].JObj? && JStr(names[i]) == Get(arms.items[i].fields, Name)
    {
      NameOfArm(arms, i);
    }
  }

  lemma BaselineIsRule(p: map<Key, Json>)
    requires AreArmsJson(Get(p, Arms))
    ensures HasBaseline(p) <==> NamesArm(Get(p, BaselineArm), ArmsFromJson(Get(p, Arms)))
  {
    var arms := Get(p, Arms);
    var names := ArmNames(ArmsFromJson(arms));
    if HasBaseline(p) {
      var v :| v in arms.items && v.JObj? && Get(v.fields, Name) == p[BaselineArm];
      var i :| 0 <= i < |arms.items| && arms.items[i] == v;
      NameOfArm(arms, i);
      assert names[i] in names;
    }
    if NamesArm(Get(p, BaselineArm), ArmsFromJson(arms)) {
      var i :| 0 <= i < |names| && names[i] == p[BaselineArm].s;
      NameOfArm(arms, i);
      assert arms.items[i] in arms.items;
    }
  }

  // An object is read as a specification exactly if it has the fifteen fields and no other, is of version 1,
  // and every field is as it has to be.
  lemma SpecsAreReadExactly(p: map<Key, Json>)
    ensures SpecFromJson(JObj(p)).Success? <==>
            && p.Keys == {StudyId, SchemaVersion, TaskManifestHash, TaskIds, Arms, BaselineArm, Repetitions,
                          AttemptPolicyKey, MaxAttempts, Model, Harness, Revision, TokenSource, ScoreContract,
                          PromotionPolicy}
            && HasVersionOne(p) && HasArms(p) && HasBaseline(p) && HasTasks(p) && HasSpecRules(p)
  {
    SpecRulesAre(p);
    TasksAreRule(p);
    ArmsAreRule(p);
    if AreArmsJson(Get(p, Arms)) {
      NamesAreRule(Get(p, Arms));
      BaselineIsRule(p);
    }
  }
}

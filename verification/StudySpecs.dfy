// The frozen prespecification of a study: what its file must say to be accepted, and what its hash
// protects.
module StudySpecs {
  import opened Wrappers
  import opened Sequences
  import opened Receipts
  import opened Capsule
  import opened PairedView
  import opened StudyLaws

  datatype ArmSpec = ArmSpec(name: string, fingerprint: string)

  datatype StudySpec = StudySpec(
    study: string,
    manifestHash: string,
    tasks: seq<string>,
    arms: seq<ArmSpec>,
    baseline: string,
    repetitions: int,
    policy: string,
    maxAttempts: int,
    model: string,
    harness: string,
    revision: string,
    tokenSource: string,
    scoreContract: string,
    promotionPolicy: string)

  datatype SpecError =
    | NotAnObject | WrongFields | BadVersion | BadArms | BadBaseline | BadTasks | BadPolicy | BadTokenSource
    | BadText | BadCount
    | UndeclaredTask | UndeclaredArm | RepetitionOutOfRange | AttemptOutOfRange

  const DESIGN_KEYS: set<Key> := {
    TaskIds, Arms, BaselineArm, Repetitions, AttemptPolicyKey, MaxAttempts, TokenSource
  }

  const SPEC_TEXT_KEYS: set<Key> := {
    StudyId, TaskManifestHash, Model, Harness, Revision, ScoreContract, PromotionPolicy
  }

  const SPEC_KEYS: set<Key> := {
    StudyId, SchemaVersion, TaskManifestHash, TaskIds, Arms, BaselineArm, Repetitions, AttemptPolicyKey, MaxAttempts,
    Model, Harness, Revision, TokenSource, ScoreContract, PromotionPolicy
  }

  const ARM_KEYS: set<Key> := {Name, CapabilityFingerprint}

  const ALL_VALID_REPETITIONS := "all_valid_repetitions"
  const FIRST_VALID_ATTEMPT := "first_valid_attempt"
  const SDK_MODEL_USAGE := "sdk_model_usage"
  const PROVIDER_NATIVE_USAGE := "provider_native_usage"

  // -- writing ---------------------------------------------------------------------------------------

  function TextsToJson(texts: seq<string>): (items: seq<Json>)
    ensures |items| == |texts|
  {
    seq(|texts|, i requires 0 <= i < |texts| => JStr(texts[i]))
  }

  function ArmToJson(arm: ArmSpec): Json {
    JObj(map[Name := JStr(arm.name), CapabilityFingerprint := JStr(arm.fingerprint)])
  }

  function ArmsToJson(arms: seq<ArmSpec>): (items: seq<Json>)
    ensures |items| == |arms|
  {
    seq(|arms|, i requires 0 <= i < |arms| => ArmToJson(arms[i]))
  }

  function DesignFields(s: StudySpec): map<Key, Json> {
    map[TaskIds := JArr(TextsToJson(s.tasks)), Arms := JArr(ArmsToJson(s.arms)), BaselineArm := JStr(s.baseline),
        Repetitions := JInt(s.repetitions), AttemptPolicyKey := JStr(s.policy), MaxAttempts := JInt(s.maxAttempts),
        TokenSource := JStr(s.tokenSource)]
  }

  function SpecTextFields(s: StudySpec): map<Key, Json> {
    map[StudyId := JStr(s.study), TaskManifestHash := JStr(s.manifestHash), Model := JStr(s.model),
        Harness := JStr(s.harness), Revision := JStr(s.revision), ScoreContract := JStr(s.scoreContract),
        PromotionPolicy := JStr(s.promotionPolicy)]
  }

  // The fields written for `s`, with `version` in the place of its version.
  function SpecFieldsWith(s: StudySpec, version: Json): map<Key, Json> {
    (DesignFields(s) + SpecTextFields(s))[SchemaVersion := version]
  }

  function SpecToJson(s: StudySpec): Json {
    JObj(SpecFieldsWith(s, JInt(1)))
  }

  // -- reading ---------------------------------------------------------------------------------------

  predicate IsArmJson(v: Json) {
    v.JObj? && v.fields.Keys <= ARM_KEYS && IsText(Get(v.fields, Name)) && IsText(Get(v.fields, CapabilityFingerprint))
  }

  predicate AreArmsJson(v: Json) {
    v.JArr? && forall a <- v.items :: IsArmJson(a)
  }

  predicate AreTasksJson(v: Json) {
    v.JArr? && v.items != [] && Distinct(v.items) && forall t <- v.items :: IsText(t)
  }

  function ArmsFromJson(v: Json): (arms: seq<ArmSpec>)
    requires AreArmsJson(v)
    ensures |arms| == |v.items|
  {
    seq(|v.items|, i requires 0 <= i < |v.items| =>
      assert v.items[i] in v.items;
      ArmSpec(Get(v.items[i].fields, Name).s, Get(v.items[i].fields, CapabilityFingerprint).s))
  }

  function TextsFromJson(v: Json): (texts: seq<string>)
    requires v.JArr? && forall t <- v.items :: IsText(t)
    ensures |texts| == |v.items|
  {
    seq(|v.items|, i requires 0 <= i < |v.items| =>
      assert v.items[i] in v.items;
      assert IsText(v.items[i]);
      v.items[i].s)
  }

  function ArmNames(arms: seq<ArmSpec>): (names: seq<string>)
    ensures |names| == |arms|
  {
    seq(|arms|, i requires 0 <= i < |arms| => arms[i].name)
  }

  predicate AreSpecTexts(p: map<Key, Json>) {
    && IsText(Get(p, StudyId)) && IsText(Get(p, TaskManifestHash)) && IsText(Get(p, Model)) && IsText(Get(p, Harness))
    && IsText(Get(p, Revision)) && IsText(Get(p, ScoreContract)) && IsText(Get(p, PromotionPolicy))
  }

  predicate IsPolicyJson(v: Json) {
    v == JStr(ALL_VALID_REPETITIONS) || v == JStr(FIRST_VALID_ATTEMPT)
  }

  predicate IsTokenSourceJson(v: Json) {
    v == JStr(SDK_MODEL_USAGE) || v == JStr(PROVIDER_NATIVE_USAGE)
  }

  predicate NamesArm(v: Json, arms: seq<ArmSpec>) {
    v.JStr? && v.s in ArmNames(arms)
  }

  function SpecProblem(p: map<Key, Json>): Option<SpecError> {
    if p.Keys != SPEC_KEYS then Some(WrongFields)
    else if !EqualsOne(Get(p, SchemaVersion)) then Some(SpecError.BadVersion)
    else if !AreArmsJson(Get(p, Arms)) || !Distinct(ArmNames(ArmsFromJson(Get(p, Arms)))) then Some(BadArms)
    else if !NamesArm(Get(p, BaselineArm), ArmsFromJson(Get(p, Arms))) then Some(BadBaseline)
    else if !AreTasksJson(Get(p, TaskIds)) then Some(BadTasks)
    else if !IsPolicyJson(Get(p, AttemptPolicyKey)) then Some(BadPolicy)
    else if !IsTokenSourceJson(Get(p, TokenSource)) then Some(BadTokenSource)
    else if !AreSpecTexts(p) then Some(SpecError.BadText)
    else if !IsPositiveInt(Get(p, Repetitions)) || !IsPositiveInt(Get(p, MaxAttempts)) then Some(BadCount)
    else None
  }

  function SpecFromJson(j: Json): Result<StudySpec, SpecError> {
    if !j.JObj? then Failure(SpecError.NotAnObject)
    else
      var p := j.fields;
      var problem := SpecProblem(p);
      if problem.Some? then Failure(problem.value)
      else
        Success(StudySpec(
          Get(p, StudyId).s, Get(p, TaskManifestHash).s, TextsFromJson(Get(p, TaskIds)), ArmsFromJson(Get(p, Arms)),
          Get(p, BaselineArm).s, Get(p, Repetitions).i, Get(p, AttemptPolicyKey).s, Get(p, MaxAttempts).i,
          Get(p, Model).s, Get(p, Harness).s, Get(p, Revision).s, Get(p, TokenSource).s,
          Get(p, ScoreContract).s, Get(p, PromotionPolicy).s))
  }

  // -- round trip --------------------------------------------------------------------------------------

  predicate HasDesign(s: StudySpec) {
    && Distinct(ArmNames(s.arms)) && (forall a <- s.arms :: a.name != "" && a.fingerprint != "")
    && s.baseline in ArmNames(s.arms)
    && s.tasks != [] && Distinct(s.tasks) && (forall t <- s.tasks :: t != "")
  }

  predicate HasRules(s: StudySpec) {
    && (s.policy == ALL_VALID_REPETITIONS || s.policy == FIRST_VALID_ATTEMPT)
    && (s.tokenSource == SDK_MODEL_USAGE || s.tokenSource == PROVIDER_NATIVE_USAGE)
    && s.repetitions >= 1 && s.maxAttempts >= 1
  }

  predicate HasSpecTexts(s: StudySpec) {
    && s.study != "" && s.manifestHash != "" && s.model != "" && s.harness != "" && s.revision != ""
    && s.scoreContract != "" && s.promotionPolicy != ""
  }

  // The specifications that a file can declare.
  predicate IsStudySpec(s: StudySpec) {
    HasDesign(s) && HasRules(s) && HasSpecTexts(s)
  }

  lemma ArmsRoundTrip(arms: seq<ArmSpec>)
    ensures AreArmsJson(JArr(ArmsToJson(arms))) <==> forall a <- arms :: a.name != "" && a.fingerprint != ""
    ensures AreArmsJson(JArr(ArmsToJson(arms))) ==> ArmsFromJson(JArr(ArmsToJson(arms))) == arms
  {
    var items := ArmsToJson(arms);
    forall i | 0 <= i < |arms|
      ensures IsArmJson(items[i]) <==> arms[i].name != "" && arms[i].fingerprint != ""
      ensures Get(items[i].fields, Name) == JStr(arms[i].name)
      ensures Get(items[i].fields, CapabilityFingerprint) == JStr(arms[i].fingerprint)
    {
      assert items[i].fields.Keys == ARM_KEYS;
    }
    if AreArmsJson(JArr(items)) {
      forall i | 0 <= i < |arms|
        ensures arms[i].name != "" && arms[i].fingerprint != ""
      {
        assert items[i] in items;
      }
    }
  }

  lemma TasksRoundTrip(tasks: seq<string>)
    ensures AreTasksJson(JArr(TextsToJson(tasks))) <==> tasks != [] && Distinct(tasks) && forall t <- tasks :: t != ""
    ensures AreTasksJson(JArr(TextsToJson(tasks))) ==> TextsFromJson(JArr(TextsToJson(tasks))) == tasks
  {
    var items := TextsToJson(tasks);
    assert forall i, j | 0 <= i < j < |tasks| :: items[i] != items[j] <==> tasks[i] != tasks[j];
    forall i | 0 <= i < |tasks|
      ensures items[i] in items && tasks[i] in tasks
    {
    }
  }

  predicate HoldsDesign(p: map<Key, Json>, s: StudySpec) {
    && Get(p, TaskIds) == JArr(TextsToJson(s.tasks)) && Get(p, Arms) == JArr(ArmsToJson(s.arms))
       && Get(p, BaselineArm) == JStr(s.baseline)
  }

  predicate HoldsRules(p: map<Key, Json>, s: StudySpec) {
    && Get(p, Repetitions) == JInt(s.repetitions) && Get(p, AttemptPolicyKey) == JStr(s.policy)
    && Get(p, MaxAttempts) == JInt(s.maxAttempts) && Get(p, TokenSource) == JStr(s.tokenSource)
  }

  predicate HoldsSpecTexts(p: map<Key, Json>, s: StudySpec) {
    && Get(p, StudyId) == JStr(s.study) && Get(p, TaskManifestHash) == JStr(s.manifestHash)
       && Get(p, Model) == JStr(s.model)
    && Get(p, Harness) == JStr(s.harness) && Get(p, Revision) == JStr(s.revision)
    && Get(p, ScoreContract) == JStr(s.scoreContract) && Get(p, PromotionPolicy) == JStr(s.promotionPolicy)
  }

  lemma DesignWritten(s: StudySpec)
    ensures var p := DesignFields(s); p.Keys == DESIGN_KEYS && HoldsDesign(p, s) && HoldsRules(p, s)
  {
  }

  lemma SpecTextsWritten(s: StudySpec)
    ensures SpecTextFields(s).Keys == SPEC_TEXT_KEYS && HoldsSpecTexts(SpecTextFields(s), s)
  {
  }

  lemma SpecKeysAreGroups()
    ensures SPEC_KEYS == DESIGN_KEYS + SPEC_TEXT_KEYS + {SchemaVersion}
  {
  }

  lemma SpecKeyGroupsAreDisjoint()
    ensures DESIGN_KEYS !! SPEC_TEXT_KEYS && SchemaVersion !in DESIGN_KEYS && SchemaVersion !in SPEC_TEXT_KEYS
  {
  }

  // Every field is written once, under its own name.
  lemma SumOfSpecFields(a: map<Key, Json>, b: map<Key, Json>, p: map<Key, Json>, version: Json)
    requires a.Keys !! b.Keys && SchemaVersion !in a.Keys && SchemaVersion !in b.Keys
    requires p == (a + b)[SchemaVersion := version]
    ensures p.Keys == a.Keys + b.Keys + {SchemaVersion} && Get(p, SchemaVersion) == version
    ensures forall key <- a.Keys :: Get(p, key) == Get(a, key)
    ensures forall key <- b.Keys :: Get(p, key) == Get(b, key)
  {
  }

  lemma SameDesign(p: map<Key, Json>, q: map<Key, Json>, s: StudySpec)
    requires HoldsDesign(q, s) && HoldsRules(q, s) && forall key <- DESIGN_KEYS :: Get(p, key) == Get(q, key)
    ensures HoldsDesign(p, s) && HoldsRules(p, s)
  {
  }

  lemma SameSpecTexts(p: map<Key, Json>, q: map<Key, Json>, s: StudySpec)
    requires HoldsSpecTexts(q, s) && forall key <- SPEC_TEXT_KEYS :: Get(p, key) == Get(q, key)
    ensures HoldsSpecTexts(p, s)
  {
  }

  lemma SpecWritten(s: StudySpec, version: Json)
    ensures var p := SpecFieldsWith(s, version);
            && p.Keys == SPEC_KEYS && Get(p, SchemaVersion) == version
            && HoldsDesign(p, s) && HoldsRules(p, s) && HoldsSpecTexts(p, s)
  {
    var p := SpecFieldsWith(s, version);
    DesignWritten(s);
    SpecTextsWritten(s);
    SpecKeyGroupsAreDisjoint();
    SpecKeysAreGroups();
    SumOfSpecFields(DesignFields(s), SpecTextFields(s), p, version);
    SameDesign(p, DesignFields(s), s);
    SameSpecTexts(p, SpecTextFields(s), s);
  }

  lemma DesignRules(p: map<Key, Json>, s: StudySpec)
    requires HoldsDesign(p, s)
    ensures AreArmsJson(Get(p, Arms)) <==> forall a <- s.arms :: a.name != "" && a.fingerprint != ""
    ensures AreArmsJson(Get(p, Arms)) ==> ArmsFromJson(Get(p, Arms)) == s.arms
    ensures AreTasksJson(Get(p, TaskIds)) <==> s.tasks != [] && Distinct(s.tasks) && forall t <- s.tasks :: t != ""
    ensures AreTasksJson(Get(p, TaskIds)) ==> TextsFromJson(Get(p, TaskIds)) == s.tasks
  {
    ArmsRoundTrip(s.arms);
    TasksRoundTrip(s.tasks);
  }

  lemma RuleRules(p: map<Key, Json>, s: StudySpec)
    requires HoldsRules(p, s)
    ensures HasRules(s) <==> IsPolicyJson(Get(p, AttemptPolicyKey)) && IsTokenSourceJson(Get(p, TokenSource))
                             && IsPositiveInt(Get(p, Repetitions)) && IsPositiveInt(Get(p, MaxAttempts))
  {
  }

  lemma SpecTextRules(p: map<Key, Json>, s: StudySpec)
    requires HoldsSpecTexts(p, s)
    ensures AreSpecTexts(p) <==> HasSpecTexts(s)
  {
  }

  lemma ReadSpecFields(p: map<Key, Json>, s: StudySpec)
    requires p.Keys == SPEC_KEYS && HoldsDesign(p, s) && HoldsRules(p, s) && HoldsSpecTexts(p, s)
    ensures SpecFromJson(JObj(p)) == Success(s) <==> EqualsOne(Get(p, SchemaVersion)) && IsStudySpec(s)
    ensures SpecFromJson(JObj(p)).Success? ==> IsStudySpec(s)
  {
    DesignRules(p, s);
    RuleRules(p, s);
    SpecTextRules(p, s);
    assert SpecProblem(p).None? <==> EqualsOne(Get(p, SchemaVersion)) && IsStudySpec(s);
  }

  // What is written is read back, for exactly the specifications that a file can declare.
  lemma SpecRoundTrip(s: StudySpec)
    ensures SpecFromJson(SpecToJson(s)) == Success(s) <==> IsStudySpec(s)
    ensures SpecFromJson(SpecToJson(s)).Success? ==> IsStudySpec(s)
  {
    SpecWritten(s, JInt(1));
    ReadSpecFields(SpecFieldsWith(s, JInt(1)), s);
  }

  // A file that gives `true` or `1.0` as its version is read as one of version 1, although it is not what
  // would be written, and hashed, for the specification.
  lemma SpecVersionsEqualToOneAreRead(s: StudySpec, version: Json)
    requires IsStudySpec(s)
    ensures SpecFromJson(JObj(SpecFieldsWith(s, version))) == Success(s)
       <==> version == JInt(1) || version == JReal(1.0) || version == JBool(true)
    ensures JObj(SpecFieldsWith(s, version)) == SpecToJson(s) <==> version == JInt(1)
  {
    SpecWritten(s, version);
    SpecWritten(s, JInt(1));
    ReadSpecFields(SpecFieldsWith(s, version), s);
  }

  // Whatever was read, its version is the one that is written, and hashed, exactly when its file gave the
  // integer.
  lemma SpecVersionSurvivesExactly(j: Json)
    requires SpecFromJson(j).Success?
    ensures Get(SpecToJson(SpecFromJson(j).value).fields, SchemaVersion) == Get(j.fields, SchemaVersion)
       <==> Get(j.fields, SchemaVersion) == JInt(1)
  {
    SpecWritten(SpecFromJson(j).value, JInt(1));
  }

  const SMALLEST_STUDY := StudySpec(
    "s", "m", ["t"], [ArmSpec("a", "f")], "a", 1, ALL_VALID_REPETITIONS, 1, "x", "h", "r", SDK_MODEL_USAGE, "c", "p")

  lemma TrueIsReadAsSpecVersionOne()
    ensures SpecFromJson(JObj(SpecFieldsWith(SMALLEST_STUDY, JBool(true)))) == Success(SMALLEST_STUDY)
    ensures SpecFromJson(JObj(SpecFieldsWith(SMALLEST_STUDY, JReal(1.0)))) == Success(SMALLEST_STUDY)
  {
    assert ArmNames(SMALLEST_STUDY.arms) == ["a"];
    assert HasDesign(SMALLEST_STUDY) && HasRules(SMALLEST_STUDY) && HasSpecTexts(SMALLEST_STUDY);
    SpecVersionsEqualToOneAreRead(SMALLEST_STUDY, JBool(true));
    SpecVersionsEqualToOneAreRead(SMALLEST_STUDY, JReal(1.0));
  }

  lemma ReadArmsAndTasks(arms: Json, tasks: Json)
    requires AreArmsJson(arms) && AreTasksJson(tasks)
    ensures forall a <- ArmsFromJson(arms) :: a.name != "" && a.fingerprint != ""
    ensures TextsFromJson(tasks) != [] && Distinct(TextsFromJson(tasks)) && forall t <- TextsFromJson(tasks) :: t != ""
  {
    assert forall i | 0 <= i < |arms.items| :: arms.items[i] in arms.items;
    assert forall i | 0 <= i < |tasks.items| :: tasks.items[i] in tasks.items;
  }

  // Whatever is read is such a specification.
  lemma ReadSpecsAreSpecs(j: Json)
    requires SpecFromJson(j).Success?
    ensures IsStudySpec(SpecFromJson(j).value)
  {
    ReadArmsAndTasks(Get(j.fields, Arms), Get(j.fields, TaskIds));
  }

  // -- the capsule's view of a specification -------------------------------------------------------------

  // The hash of what is written for a specification.
  type Digest = Json -> string

  function Frozen(s: StudySpec, digest: Digest): Spec
    requires IsStudySpec(s)
  {
    Spec(s.study, digest(SpecToJson(s)), s.manifestHash, s.tasks, ArmNames(s.arms), s.repetitions,
         if s.policy == ALL_VALID_REPETITIONS then AllValidRepetitions else FirstValidAttempt,
         s.maxAttempts, s.harness, s.tokenSource, s.scoreContract)
  }

  // A specification that was read satisfies what the capsule relies on.
  lemma FrozenIsSpec(s: StudySpec, digest: Digest)
    requires IsStudySpec(s)
    ensures IsSpec(Frozen(s, digest))
  {
    assert s.baseline in ArmNames(s.arms);
  }

  // What a receipt has to say to belong to the study of a specification, in the fields of its file.
  lemma BelongsToFile(s: StudySpec, digest: Digest, r: Receipt)
    requires IsStudySpec(s)
    ensures CheckBelongs(Frozen(s, digest), r).None? <==>
            && r.trial.study == s.study && r.specHash == digest(SpecToJson(s)) && r.taskManifestHash == s.manifestHash
            && r.trial.task in s.tasks && r.trial.arm in ArmNames(s.arms)
            && 1 <= r.trial.repetition <= s.repetitions && 1 <= r.trial.attempt <= s.maxAttempts
            && (r.status == "valid" ==>
                  && r.scoreContract == Some(s.scoreContract) && r.harnessHash == Some(s.harness)
                  && r.usage.Some? && r.usage.value.source == s.tokenSource)
    ensures Frozen(s, digest).policy == AllValidRepetitions <==> s.policy == "all_valid_repetitions"
    ensures Frozen(s, digest).policy == FirstValidAttempt <==> s.policy == "first_valid_attempt"
  {
    assert "all_valid_repetitions"[0] != "first_valid_attempt"[0];
  }

  // No two specifications that are written differently share a digest.
  ghost predicate IsCollisionFree(digest: Digest) {
    forall s: StudySpec, t: StudySpec ::
      digest(SpecToJson(s)) == digest(SpecToJson(t)) ==> SpecToJson(s) == SpecToJson(t)
  }

  lemma HashIdentifiesSpec(s: StudySpec, t: StudySpec, digest: Digest)
    requires IsStudySpec(s) && IsStudySpec(t) && IsCollisionFree(digest)
    ensures Frozen(s, digest).specHash == Frozen(t, digest).specHash <==> s == t
  {
    if digest(SpecToJson(s)) == digest(SpecToJson(t)) {
      SpecRoundTrip(s);
      SpecRoundTrip(t);
    }
  }

  // Editing any frozen field in the middle of a study orphans the receipts collected so far: a receipt
  // belongs to the edited specification only if nothing was edited.
  lemma EditedSpecOrphansReceipts(s: StudySpec, t: StudySpec, digest: Digest, r: Receipt)
    requires IsStudySpec(s) && IsStudySpec(t) && IsCollisionFree(digest)
    requires CheckBelongs(Frozen(s, digest), r).None?
    ensures CheckBelongs(Frozen(t, digest), r).None? <==> s == t
  {
    HashIdentifiesSpec(s, t, digest);
  }

  // -- trial ids ---------------------------------------------------------------------------------------------

  function Slots(s: StudySpec): seq<Slot> {
    Rectangle(s.tasks, ArmNames(s.arms), if s.repetitions >= 0 then s.repetitions else 0)
  }

  function CompileTrial(s: StudySpec, task: string, arm: string, repetition: int,
                        attempt: int): Result<TrialID, SpecError> {
    if task !in s.tasks then Failure(UndeclaredTask)
    else if arm !in ArmNames(s.arms) then Failure(UndeclaredArm)
    else if !(1 <= repetition <= s.repetitions) then Failure(RepetitionOutOfRange)
    else if !(1 <= attempt <= s.maxAttempts) then Failure(AttemptOutOfRange)
    else Success(TrialID(s.study, task, arm, repetition, attempt))
  }

  // A trial id is compiled for exactly the attempts at the declared slots, and a receipt for it is never
  // rejected as undeclared or as belonging to another study.
  lemma CompiledTrialsAreDeclared(s: StudySpec, digest: Digest, task: string, arm: string, repetition: int,
                                  attempt: int)
    requires IsStudySpec(s)
    ensures var t := CompileTrial(s, task, arm, repetition, attempt);
            && (t.Success? <==> Slot(task, arm, repetition) in Slots(s) && 1 <= attempt <= s.maxAttempts)
            && (t.Success? ==> SlotOf(t.value) == Slot(task, arm, repetition) && t.value.attempt == attempt
                               && t.value.study == s.study && IsDeclared(Frozen(s, digest), t.value))
  {
    FrozenIsSpec(s, digest);
    RectangleIs(s.tasks, ArmNames(s.arms), s.repetitions);
  }

  // Every declared cell has as many slots as there are repetitions, and no slot is listed twice.
  lemma SlotsAreTheDesign(s: StudySpec)
    requires IsStudySpec(s)
    ensures |Slots(s)| == |s.tasks| * (|s.arms| * s.repetitions) && Distinct(Slots(s))
  {
    RectangleIs(s.tasks, ArmNames(s.arms), s.repetitions);
  }
}

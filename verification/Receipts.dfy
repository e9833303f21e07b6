// Trial identities and receipts: what one execution says about itself, as a value and as the JSON
// object it is stored as.
module Receipts {
  import opened Wrappers

  // The field names of the format; any other name is `Other`.
  datatype Key =
    | SchemaVersion | Trial | SpecHash | TaskManifestHash | Status | FailureClass | ImageDigest
    | ArmGateProof | TaskHash | HarnessHash | VerifierHash | Score | ScoreContract | UsageKey | ToolUse
    | Artifacts | StartedAt | EndedAt
    | StudyId | TaskId | Arm | Repetition | Attempt
    | Source | CostUsd | ModelUsage
    | TaskIds | Arms | BaselineArm | Repetitions | AttemptPolicyKey | MaxAttempts | Model | Harness | Revision
    | TokenSource | PromotionPolicy | Name | CapabilityFingerprint
    | Other(name: string)

  datatype Json =
    | JNull
    | JBool(b: bool)
    | JInt(i: int)
    | JReal(r: real)
    | JStr(s: string)
    | JArr(items: seq<Json>)
    | JObj(fields: map<Key, Json>)

  datatype TrialID = TrialID(study: string, task: string, arm: string, repetition: int, attempt: int)

  datatype Slot = Slot(task: string, arm: string, repetition: int)

  function SlotOf(t: TrialID): Slot {
    Slot(t.task, t.arm, t.repetition)
  }

  datatype Usage = Usage(source: string, cost: Option<real>, modelUsage: map<Key, Json>)

  const VALID: string := "valid"

  const INFRA_INVALID: string := "infra_invalid"

  const INELIGIBLE: string := "ineligible"

  datatype Receipt = Receipt(
    trial: TrialID,
    schemaVersion: int,
    specHash: string,
    taskManifestHash: string,
    status: string,
    failureClass: Option<string>,
    imageDigest: Option<string>,
    armGateProof: Option<string>,
    taskHash: Option<string>,
    harnessHash: Option<string>,
    verifierHash: Option<string>,
    score: Option<real>,
    scoreContract: Option<string>,
    usage: Option<Usage>,
    toolUse: map<Key, Json>,
    artifacts: map<Key, string>,
    startedAt: string,
    endedAt: string)

  datatype Rejection =
    | NotAnObject | UnknownField | BadVersion | BadTrial | BadStatus | BadText
    | BadScore | BadUsage | BadToolUse | BadArtifact | BadProvenance

  const TRIAL_KEYS: set<Key> := {StudyId, TaskId, Arm, Repetition, Attempt}

  const USAGE_KEYS: set<Key> := {Source, CostUsd, ModelUsage}

  const TEXT_KEYS: set<Key> := {SpecHash, TaskManifestHash, Status, StartedAt, EndedAt}

  const OPTIONAL_TEXT_KEYS: set<Key> := {
    FailureClass, ImageDigest, ArmGateProof, TaskHash, HarnessHash, VerifierHash, ScoreContract
  }

  const OBJECT_KEYS: set<Key> := {Trial, Score, UsageKey, ToolUse, Artifacts}

  const RECEIPT_KEYS: set<Key> := {
    SchemaVersion, Trial, SpecHash, TaskManifestHash, Status, FailureClass, ImageDigest, ArmGateProof,
    TaskHash, HarnessHash, VerifierHash, Score, ScoreContract, UsageKey, ToolUse, Artifacts, StartedAt, EndedAt
  }

  // -- writing -----------------------------------------------------------------

  function StringOrNull(v: Option<string>): Json {
    if v.Some? then JStr(v.value) else JNull
  }

  function RealOrNull(v: Option<real>): Json {
    if v.Some? then JReal(v.value) else JNull
  }

  function TrialToJson(t: TrialID): Json {
    JObj(map[StudyId := JStr(t.study), TaskId := JStr(t.task), Arm := JStr(t.arm),
             Repetition := JInt(t.repetition), Attempt := JInt(t.attempt)])
  }

  function UsageToJson(u: Usage): Json {
    JObj(map[Source := JStr(u.source), CostUsd := RealOrNull(u.cost), ModelUsage := JObj(u.modelUsage)])
  }

  function ArtifactsToJson(artifacts: map<Key, string>): map<Key, Json> {
    map k | k in artifacts :: JStr(artifacts[k])
  }

  function TextFields(r: Receipt): map<Key, Json> {
    map[SpecHash := JStr(r.specHash), TaskManifestHash := JStr(r.taskManifestHash), Status := JStr(r.status),
        StartedAt := JStr(r.startedAt), EndedAt := JStr(r.endedAt)]
  }

  function OptionalTextFields(r: Receipt): map<Key, Json> {
    map[FailureClass := StringOrNull(r.failureClass), ImageDigest := StringOrNull(r.imageDigest),
        ArmGateProof := StringOrNull(r.armGateProof), TaskHash := StringOrNull(r.taskHash),
        HarnessHash := StringOrNull(r.harnessHash), VerifierHash := StringOrNull(r.verifierHash),
        ScoreContract := StringOrNull(r.scoreContract)]
  }

  function ObjectFields(r: Receipt): map<Key, Json> {
    map[Trial := TrialToJson(r.trial), Score := RealOrNull(r.score),
        UsageKey := if r.usage.Some? then UsageToJson(r.usage.value) else JNull,
        ToolUse := JObj(r.toolUse), Artifacts := JObj(ArtifactsToJson(r.artifacts))]
  }

  // The fields written for `r`, with `version` in the place of its version.
  function FieldsWith(r: Receipt, version: Json): map<Key, Json> {
    (TextFields(r) + OptionalTextFields(r) + ObjectFields(r))[SchemaVersion := version]
  }

  function ToJson(r: Receipt): Json {
    JObj(FieldsWith(r, JInt(r.schemaVersion)))
  }

  // -- reading -----------------------------------------------------------------

  // Python's `payload.get(key)`.
  function Get(p: map<Key, Json>, key: Key): Json {
    if key in p then p[key] else JNull
  }

  predicate IsText(v: Json) {
    v.JStr? && v.s != ""
  }

  predicate IsTextOrNull(v: Json) {
    v.JNull? || IsText(v)
  }

  function TextOrNone(v: Json): Option<string> {
    if v.JStr? then Some(v.s) else None
  }

  predicate IsNumber(v: Json) {
    v.JInt? || v.JReal?
  }

  function ToReal(v: Json): real
    requires IsNumber(v)
  {
    if v.JInt? then v.i as real else v.r
  }

  predicate IsPositiveInt(v: Json) {
    v.JInt? && v.i >= 1
  }

  // `version != 1` lets every value pass that Python finds equal to 1.
  predicate EqualsOne(v: Json) {
    v == JInt(1) || v == JReal(1.0) || v == JBool(true)
  }

  predicate IsTrialJson(p: Json) {
    && p.JObj?
    && p.fields.Keys == TRIAL_KEYS
    && IsText(p.fields[StudyId]) && IsText(p.fields[TaskId]) && IsText(p.fields[Arm])
    && IsPositiveInt(p.fields[Repetition]) && IsPositiveInt(p.fields[Attempt])
  }

  function TrialFromJson(p: Json): TrialID
    requires IsTrialJson(p)
  {
    TrialID(p.fields[StudyId].s, p.fields[TaskId].s, p.fields[Arm].s, p.fields[Repetition].i, p.fields[Attempt].i)
  }

  predicate IsCost(v: Json) {
    v.JNull? || (IsNumber(v) && ToReal(v) >= 0.0)
  }

  predicate IsUsageJson(p: Json) {
    && p.JObj?
    && p.fields.Keys <= USAGE_KEYS
    && IsText(Get(p.fields, Source))
    && IsCost(Get(p.fields, CostUsd))
    && Get(p.fields, ModelUsage).JObj? && Get(p.fields, ModelUsage).fields != map[]
  }

  function RealOrNone(v: Json): Option<real> {
    if IsNumber(v) then Some(ToReal(v)) else None
  }

  function UsageFromJson(p: Json): Usage
    requires IsUsageJson(p)
  {
    Usage(Get(p.fields, Source).s, RealOrNone(Get(p.fields, CostUsd)), Get(p.fields, ModelUsage).fields)
  }

  predicate IsScore(v: Json) {
    v.JNull? || (IsNumber(v) && 0.0 <= ToReal(v) <= 1.0)
  }

  predicate IsDigest(v: Json) {
    v.JStr? && "sha256:" <= v.s
  }

  predicate AreArtifacts(v: Json) {
    v.JObj? && forall k <- v.fields :: IsDigest(v.fields[k])
  }

  function ArtifactsFromJson(p: map<Key, Json>): map<Key, string>
    requires AreArtifacts(JObj(p))
  {
    map k | k in p :: p[k].s
  }

  // The status decides which provenance a receipt must and must not carry.
  predicate ProvenanceMatchesStatus(r: Receipt) {
    if r.status == VALID then
      && r.imageDigest.Some? && r.armGateProof.Some? && r.taskHash.Some? && r.harnessHash.Some?
      && r.verifierHash.Some? && r.scoreContract.Some?
      && r.score.Some? && r.usage.Some? && r.failureClass.None?
    else
      r.failureClass.Some? && r.score.None?
  }

  predicate HasTexts(p: map<Key, Json>) {
    IsText(Get(p, SpecHash)) && IsText(Get(p, TaskManifestHash)) && IsText(Get(p, StartedAt)) && IsText(Get(p, EndedAt))
  }

  predicate HasOptionalTexts(p: map<Key, Json>) {
    && IsTextOrNull(Get(p, FailureClass)) && IsTextOrNull(Get(p, ImageDigest)) && IsTextOrNull(Get(p, ArmGateProof))
    && IsTextOrNull(Get(p, TaskHash)) && IsTextOrNull(Get(p, HarnessHash)) && IsTextOrNull(Get(p, VerifierHash))
    && IsTextOrNull(Get(p, ScoreContract))
  }

  // The first rule that the fields of a receipt break.
  function Problem(p: map<Key, Json>): Option<Rejection> {
    if !(p.Keys <= RECEIPT_KEYS) then Some(UnknownField)
    else if !EqualsOne(Get(p, SchemaVersion)) then Some(BadVersion)
    else if !IsTrialJson(Get(p, Trial)) then Some(BadTrial)
    else if !IsStatus(Get(p, Status)) then Some(BadStatus)
    else if !HasTexts(p) || !HasOptionalTexts(p) then Some(BadText)
    else if !IsScore(Get(p, Score)) then Some(BadScore)
    else if !IsUsageOrNull(Get(p, UsageKey)) then Some(BadUsage)
    else if !Get(p, ToolUse).JObj? then Some(BadToolUse)
    else if !AreArtifacts(Get(p, Artifacts)) then Some(BadArtifact)
    else None
  }

  function FromJson(j: Json): Result<Receipt, Rejection> {
    if !j.JObj? then Failure(NotAnObject)
    else
      match Problem(j.fields)
      case Some(e) => Failure(e)
      case None =>
        var r := Assemble(j.fields);
        if ProvenanceMatchesStatus(r) then Success(r) else Failure(BadProvenance)
  }

  predicate IsUsageOrNull(v: Json) {
    v.JNull? || IsUsageJson(v)
  }

  predicate IsStatus(v: Json) {
    v.JStr? && (v.s == VALID || v.s == INFRA_INVALID || v.s == INELIGIBLE)
  }

  function Assemble(p: map<Key, Json>): Receipt
    requires Problem(p).None?
  {
    var artifacts := Get(p, Artifacts).fields;
    Receipt(
      TrialFromJson(Get(p, Trial)), 1, Get(p, SpecHash).s, Get(p, TaskManifestHash).s, Get(p, Status).s,
      TextOrNone(Get(p, FailureClass)), TextOrNone(Get(p, ImageDigest)), TextOrNone(Get(p, ArmGateProof)),
      TextOrNone(Get(p, TaskHash)), TextOrNone(Get(p, HarnessHash)), TextOrNone(Get(p, VerifierHash)),
      RealOrNone(Get(p, Score)), TextOrNone(Get(p, ScoreContract)),
      if Get(p, UsageKey).JNull? then None else Some(UsageFromJson(Get(p, UsageKey))),
      Get(p, ToolUse).fields, ArtifactsFromJson(artifacts),
      Get(p, StartedAt).s, Get(p, EndedAt).s)
  }

  // -- the receipts that survive being written ---------------------------------

  predicate IsTrial(t: TrialID) {
    t.study != "" && t.task != "" && t.arm != "" && t.repetition >= 1 && t.attempt >= 1
  }

  predicate NotEmpty(v: Option<string>) {
    v.Some? ==> v.value != ""
  }

  predicate WellFormed(r: Receipt) {
    r.schemaVersion == 1 && HasGoodFields(r) && ProvenanceMatchesStatus(r)
  }

  predicate HasGoodFields(r: Receipt) {
    && IsTrial(r.trial)
    && (r.status == VALID || r.status == INFRA_INVALID || r.status == INELIGIBLE)
    && r.specHash != "" && r.taskManifestHash != "" && r.startedAt != "" && r.endedAt != ""
    && NotEmpty(r.failureClass) && NotEmpty(r.imageDigest) && NotEmpty(r.armGateProof) && NotEmpty(r.taskHash)
    && NotEmpty(r.harnessHash) && NotEmpty(r.verifierHash) && NotEmpty(r.scoreContract)
    && (r.score.Some? ==> 0.0 <= r.score.value <= 1.0)
    && (r.usage.Some? ==> IsUsage(r.usage.value))
    && (forall k <- r.artifacts :: "sha256:" <= r.artifacts[k])
  }

  predicate IsUsage(u: Usage) {
    u.source != "" && (u.cost.Some? ==> u.cost.value >= 0.0) && u.modelUsage != map[]
  }

  // -- round trips ---------------------------------------------------------------

  lemma TrialRoundTrip(t: TrialID)
    ensures IsTrialJson(TrialToJson(t)) <==> IsTrial(t)
    ensures IsTrial(t) ==> TrialFromJson(TrialToJson(t)) == t
  {
    assert TrialToJson(t).fields.Keys == TRIAL_KEYS;
  }

  lemma UsageRoundTrip(u: Usage)
    ensures IsUsageJson(UsageToJson(u)) <==> IsUsage(u)
    ensures IsUsage(u) ==> UsageFromJson(UsageToJson(u)) == u
  {
    var p := UsageToJson(u).fields;
    assert p.Keys == USAGE_KEYS;
    assert Get(p, Source) == JStr(u.source) && Get(p, CostUsd) == RealOrNull(u.cost)
           && Get(p, ModelUsage) == JObj(u.modelUsage);
  }

  lemma ArtifactsRoundTrip(artifacts: map<Key, string>)
    ensures AreArtifacts(JObj(ArtifactsToJson(artifacts))) <==> forall k <- artifacts :: "sha256:" <= artifacts[k]
    ensures AreArtifacts(JObj(ArtifactsToJson(artifacts))) ==>
            ArtifactsFromJson(ArtifactsToJson(artifacts)) == artifacts
  {
    var json := ArtifactsToJson(artifacts);
    assert forall k <- json :: json[k] == JStr(artifacts[k]);
    if AreArtifacts(JObj(json)) {
      assert forall k <- artifacts :: k in json && IsDigest(json[k]);
    }
  }

  // The fields `p` hold what is written for `r`.
  predicate HoldsTexts(p: map<Key, Json>, r: Receipt) {
    && Get(p, SpecHash) == JStr(r.specHash) && Get(p, TaskManifestHash) == JStr(r.taskManifestHash)
    && Get(p, Status) == JStr(r.status) && Get(p, StartedAt) == JStr(r.startedAt)
    && Get(p, EndedAt) == JStr(r.endedAt)
  }

  predicate HoldsOptionalTexts(p: map<Key, Json>, r: Receipt) {
    && Get(p, FailureClass) == StringOrNull(r.failureClass) && Get(p, ImageDigest) == StringOrNull(r.imageDigest)
    && Get(p, ArmGateProof) == StringOrNull(r.armGateProof) && Get(p, TaskHash) == StringOrNull(r.taskHash)
    && Get(p, HarnessHash) == StringOrNull(r.harnessHash) && Get(p, VerifierHash) == StringOrNull(r.verifierHash)
    && Get(p, ScoreContract) == StringOrNull(r.scoreContract)
  }

  predicate HoldsObjects(p: map<Key, Json>, r: Receipt) {
    && Get(p, Trial) == TrialToJson(r.trial) && Get(p, Score) == RealOrNull(r.score)
    && Get(p, ToolUse) == JObj(r.toolUse)
    && Get(p, UsageKey) == (if r.usage.Some? then UsageToJson(r.usage.value) else JNull)
    && Get(p, Artifacts) == JObj(ArtifactsToJson(r.artifacts))
  }

  lemma FieldsWritten(r: Receipt)
    ensures TextFields(r).Keys == TEXT_KEYS && HoldsTexts(TextFields(r), r)
    ensures ObjectFields(r).Keys == OBJECT_KEYS && HoldsObjects(ObjectFields(r), r)
  {
  }

  lemma OptionalTextsWritten(r: Receipt)
    ensures OptionalTextFields(r).Keys == OPTIONAL_TEXT_KEYS && HoldsOptionalTexts(OptionalTextFields(r), r)
  {
  }

  lemma KeysAreGroups()
    ensures RECEIPT_KEYS == TEXT_KEYS + OPTIONAL_TEXT_KEYS + OBJECT_KEYS + {SchemaVersion}
  {
  }

  lemma KeyGroupsAreDisjoint()
    ensures TEXT_KEYS !! OPTIONAL_TEXT_KEYS && TEXT_KEYS !! OBJECT_KEYS && OPTIONAL_TEXT_KEYS !! OBJECT_KEYS
    ensures SchemaVersion !in TEXT_KEYS && SchemaVersion !in OPTIONAL_TEXT_KEYS && SchemaVersion !in OBJECT_KEYS
  {
  }

  // Every field is written once, under its own name.
  lemma SumOfFields(a: map<Key, Json>, b: map<Key, Json>, c: map<Key, Json>, p: map<Key, Json>, version: Json)
    requires a.Keys !! b.Keys && a.Keys !! c.Keys && b.Keys !! c.Keys
    requires SchemaVersion !in a.Keys && SchemaVersion !in b.Keys && SchemaVersion !in c.Keys
    requires p == (a + b + c)[SchemaVersion := version]
    ensures p.Keys == a.Keys + b.Keys + c.Keys + {SchemaVersion} && Get(p, SchemaVersion) == version
    ensures forall key <- a.Keys :: Get(p, key) == Get(a, key)
    ensures forall key <- b.Keys :: Get(p, key) == Get(b, key)
    ensures forall key <- c.Keys :: Get(p, key) == Get(c, key)
  {
  }

  lemma SameTexts(p: map<Key, Json>, q: map<Key, Json>, r: Receipt)
    requires HoldsTexts(q, r) && forall key <- TEXT_KEYS :: Get(p, key) == Get(q, key)
    ensures HoldsTexts(p, r)
  {
  }

  lemma SameOptionalTexts(p: map<Key, Json>, q: map<Key, Json>, r: Receipt)
    requires HoldsOptionalTexts(q, r) && forall key <- OPTIONAL_TEXT_KEYS :: Get(p, key) == Get(q, key)
    ensures HoldsOptionalTexts(p, r)
  {
  }

  lemma SameObjects(p: map<Key, Json>, q: map<Key, Json>, r: Receipt)
    requires HoldsObjects(q, r) && forall key <- OBJECT_KEYS :: Get(p, key) == Get(q, key)
    ensures HoldsObjects(p, r)
  {
  }

  lemma Written(r: Receipt, version: Json)
    ensures var p := FieldsWith(r, version);
            && p.Keys == RECEIPT_KEYS && Get(p, SchemaVersion) == version
            && HoldsTexts(p, r) && HoldsOptionalTexts(p, r) && HoldsObjects(p, r)
  {
    var p := FieldsWith(r, version);
    FieldsWritten(r);
    OptionalTextsWritten(r);
    KeyGroupsAreDisjoint();
    KeysAreGroups();
    SumOfFields(TextFields(r), OptionalTextFields(r), ObjectFields(r), p, version);
    SameTexts(p, TextFields(r), r);
    SameOptionalTexts(p, OptionalTextFields(r), r);
    SameObjects(p, ObjectFields(r), r);
  }

  lemma OptionalTextRules(p: map<Key, Json>, r: Receipt)
    requires HoldsOptionalTexts(p, r)
    ensures HasOptionalTexts(p) <==>
            && NotEmpty(r.failureClass) && NotEmpty(r.imageDigest) && NotEmpty(r.armGateProof) && NotEmpty(r.taskHash)
            && NotEmpty(r.harnessHash) && NotEmpty(r.verifierHash) && NotEmpty(r.scoreContract)
  {
  }

  lemma ObjectRules(p: map<Key, Json>, r: Receipt)
    requires HoldsObjects(p, r)
    ensures IsTrialJson(Get(p, Trial)) <==> IsTrial(r.trial)
    ensures IsScore(Get(p, Score)) <==> (r.score.Some? ==> 0.0 <= r.score.value <= 1.0)
    ensures IsUsageOrNull(Get(p, UsageKey)) <==> (r.usage.Some? ==> IsUsage(r.usage.value))
    ensures AreArtifacts(Get(p, Artifacts)) <==> forall k <- r.artifacts :: "sha256:" <= r.artifacts[k]
  {
    TrialRoundTrip(r.trial);
    ArtifactsRoundTrip(r.artifacts);
    if r.usage.Some? {
      UsageRoundTrip(r.usage.value);
    }
  }

  lemma TextRules(p: map<Key, Json>, r: Receipt)
    requires HoldsTexts(p, r)
    ensures HasTexts(p) <==> r.specHash != "" && r.taskManifestHash != "" && r.startedAt != "" && r.endedAt != ""
    ensures IsStatus(Get(p, Status)) <==> (r.status == VALID || r.status == INFRA_INVALID || r.status == INELIGIBLE)
  {
  }

  lemma FieldsHaveNoProblem(p: map<Key, Json>, r: Receipt)
    requires p.Keys == RECEIPT_KEYS && HoldsTexts(p, r) && HoldsOptionalTexts(p, r) && HoldsObjects(p, r)
    ensures Problem(p).None? <==> EqualsOne(Get(p, SchemaVersion)) && HasGoodFields(r)
  {
    TextRules(p, r);
    OptionalTextRules(p, r);
    ObjectRules(p, r);
    assert Get(p, ToolUse).JObj?;
  }

  lemma OptionalTextsAssemble(p: map<Key, Json>, r: Receipt)
    requires HoldsOptionalTexts(p, r)
    ensures TextOrNone(Get(p, FailureClass)) == r.failureClass && TextOrNone(Get(p, ImageDigest)) == r.imageDigest
    ensures TextOrNone(Get(p, ArmGateProof)) == r.armGateProof && TextOrNone(Get(p, TaskHash)) == r.taskHash
    ensures TextOrNone(Get(p, HarnessHash)) == r.harnessHash && TextOrNone(Get(p, VerifierHash)) == r.verifierHash
    ensures TextOrNone(Get(p, ScoreContract)) == r.scoreContract
  {
  }

  lemma ObjectsAssemble(p: map<Key, Json>, r: Receipt)
    requires HoldsObjects(p, r) && IsTrialJson(Get(p, Trial))
    requires IsUsageOrNull(Get(p, UsageKey)) && AreArtifacts(Get(p, Artifacts))
    ensures TrialFromJson(Get(p, Trial)) == r.trial
    ensures RealOrNone(Get(p, Score)) == r.score && Get(p, ToolUse) == JObj(r.toolUse)
    ensures (if Get(p, UsageKey).JNull? then None else Some(UsageFromJson(Get(p, UsageKey)))) == r.usage
    ensures ArtifactsFromJson(Get(p, Artifacts).fields) == r.artifacts
  {
    TrialRoundTrip(r.trial);
    ArtifactsRoundTrip(r.artifacts);
    if r.usage.Some? {
      UsageRoundTrip(r.usage.value);
    }
  }

  lemma FieldsAssemble(p: map<Key, Json>, r: Receipt)
    requires Problem(p).None?
    requires HoldsTexts(p, r) && HoldsOptionalTexts(p, r) && HoldsObjects(p, r)
    ensures Assemble(p) == r.(schemaVersion := 1)
  {
    OptionalTextsAssemble(p, r);
    ObjectsAssemble(p, r);
  }

  lemma ReadWithVersion(r: Receipt, version: Json)
    ensures FromJson(JObj(FieldsWith(r, version))).Success?
       <==> EqualsOne(version) && WellFormed(r.(schemaVersion := 1))
    ensures FromJson(JObj(FieldsWith(r, version))).Success? ==>
              FromJson(JObj(FieldsWith(r, version))).value == r.(schemaVersion := 1)
  {
    Written(r, version);
    ReadFields(FieldsWith(r, version), r);
  }

  lemma ReadFields(p: map<Key, Json>, r: Receipt)
    requires p.Keys == RECEIPT_KEYS && HoldsTexts(p, r) && HoldsOptionalTexts(p, r) && HoldsObjects(p, r)
    ensures FromJson(JObj(p)).Success? <==> EqualsOne(Get(p, SchemaVersion)) && WellFormed(r.(schemaVersion := 1))
    ensures FromJson(JObj(p)).Success? ==> FromJson(JObj(p)).value == r.(schemaVersion := 1)
  {
    FieldsHaveNoProblem(p, r);
    if Problem(p).None? {
      FieldsAssemble(p, r);
    }
    SameButVersion(r);
  }

  lemma SameButVersion(r: Receipt)
    ensures WellFormed(r.(schemaVersion := 1)) <==> HasGoodFields(r) && ProvenanceMatchesStatus(r)
    ensures ProvenanceMatchesStatus(r.(schemaVersion := 1)) <==> ProvenanceMatchesStatus(r)
  {
  }

  // What is written is read back, for exactly the receipts that are well formed.
  lemma ReceiptRoundTrip(r: Receipt)
    ensures FromJson(ToJson(r)) == Success(r) <==> WellFormed(r)
    ensures FromJson(ToJson(r)).Success? ==> WellFormed(r)
  {
    ReadWithVersion(r, JInt(r.schemaVersion));
    assert r.schemaVersion == 1 ==> r.(schemaVersion := 1) == r;
  }

  // A file that gives `true` or `1.0` as its version is read as one of version 1 …
  lemma VersionsEqualToOneAreRead(r: Receipt, version: Json)
    requires WellFormed(r)
    ensures FromJson(JObj(FieldsWith(r, version))) == Success(r)
       <==> version == JInt(1) || version == JReal(1.0) || version == JBool(true)
    ensures FieldsWith(r, JBool(true)) != FieldsWith(r, JInt(1)) && FieldsWith(r, JReal(1.0)) != FieldsWith(r, JInt(1))
  {
    ReadWithVersion(r, version);
    Written(r, JBool(true));
    Written(r, JInt(1));
    Written(r, JReal(1.0));
    assert r.(schemaVersion := 1) == r;
  }

  // … so the version of a file that was read is the one that would be written for it again exactly when
  // the file gave the integer.
  lemma VersionSurvivesExactly(j: Json)
    requires FromJson(j).Success?
    ensures FromJson(j).value.schemaVersion == 1
    ensures Get(ToJson(FromJson(j).value).fields, SchemaVersion) == Get(j.fields, SchemaVersion)
       <==> Get(j.fields, SchemaVersion) == JInt(1)
  {
    WrittenVersion(FromJson(j).value);
  }

  lemma WrittenVersion(r: Receipt)
    ensures Get(ToJson(r).fields, SchemaVersion) == JInt(r.schemaVersion)
  {
  }

  // A receipt to show it on.
  const SMALLEST := Receipt(
    TrialID("s", "t", "a", 1, 1), 1, "h", "m", INFRA_INVALID, Some("oom"), None, None, None, None, None, None, None,
    None, map[], map[], "0", "1")

  lemma TrueIsReadAsVersionOne()
    ensures WellFormed(SMALLEST)
    ensures FromJson(JObj(FieldsWith(SMALLEST, JBool(true)))) == Success(SMALLEST)
    ensures FromJson(JObj(FieldsWith(SMALLEST, JReal(1.0)))) == Success(SMALLEST)
  {
    VersionsEqualToOneAreRead(SMALLEST, JBool(true));
    VersionsEqualToOneAreRead(SMALLEST, JReal(1.0));
  }

  // Whatever is read is well formed, so nothing malformed enters a study through the log.
  lemma ReadReceiptsAreWellFormed(j: Json)
    requires FromJson(j).Success?
    ensures WellFormed(FromJson(j).value)
  {
    var p := j.fields;
    var artifacts := Get(p, Artifacts).fields;
    assert forall k <- artifacts :: IsDigest(artifacts[k]);
  }

  predicate DistinctTrials(receipts: seq<Receipt>) {
    forall i, j | 0 <= i < j < |receipts| :: receipts[i].trial != receipts[j].trial
  }
}

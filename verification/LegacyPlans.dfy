/**
 Legacy storage references: classification, migration plans and tombstone pairing
 (apps/api/maintenance/legacy/reference-inventory.ts).

 File-system paths enter through `Relative`: the path of a value below a root, when it is contained
 there. Roots are already resolved. A plan's own digest is left out: it is recomputed from the plan.
 */
module LegacyPlans {
  import opened Outcomes
  import opened Text

  const MAX_SOURCE_BYTES := 24 * 1024 * 1024

  datatype Model = UploadBatch | Cafe24UploadBatch | CoupangUploadBatch | ReportExport | StorageTombstone

  datatype Field = StoredFilePath | FilePath | OriginalKey | TrashKey

  datatype Observation = NotChecked | Found | Missing

  datatype Candidate = Candidate(
    model: Model, recordId: string, field: Field, value: Option<string>, declaredProvider: Option<string>,
    sourceRoot: Option<string>, status: string, expectedHash: Option<string>, expectedSize: Option<nat>,
    observation: Observation)

  datatype Category = NullValue | Supabase | LocalTagged | UntaggedContained | AbsoluteContained | Invalid | Mixed

  datatype Classified = Classified(category: Category, provider: Option<string>, key: Option<string>)

  datatype Entry = Entry(candidate: Candidate, classified: Classified, migrationCandidate: bool)

  datatype Source = Source(hash: string, size: nat)

  datatype Plan = Plan(
    model: Model, recordId: string, field: Field, oldValue: string, oldProvider: Option<string>, oldStatus: string,
    sourceRoot: string, sourceKey: string, hash: string, size: nat, targetKey: string, targetReference: string)

  type Relative = (string, string) -> Option<string>

  /** The `provider:key` form: a short lower-case tag, a colon, and a one-line remainder. */
  function Tagged(value: string): Option<(string, string)> {
    var colon := IndexOf(value, ':');
    if && 1 <= colon <= 32 && colon + 1 < |value| && IsLower(value[0])
       && (forall i :: 0 < i < colon ==> IsLower(value[i]) || IsDigit(value[i]) || value[i] == '-')
       && (forall i :: colon < i < |value| ==> value[i] !in "\n\r\U{2028}\U{2029}")
    then Some((value[..colon], value[colon + 1..])) else None
  }

  predicate SafeRelativeKey(s: string) {
    && 0 < |s| <= 1024 && '\\' !in s && ':' !in s && s[0] != '/'
    && forall segment :: segment in Segments(s) ==> segment != "" && segment != "." && segment != ".."
  }

  predicate IsAbsolute(s: string) {
    && s != ""
    && (|| s[0] == '/' || s[0] == '\\'
        || (|s| > 2 && ('a' <= s[0] <= 'z' || 'A' <= s[0] <= 'Z') && s[1] == ':' && s[2] in "/\\"))
  }

  // ---- Classification -------------------------------------------------------------------------

  const INVALID := Classified(Invalid, None, None)

  predicate BoundRoot(c: Candidate, roots: set<string>) { Truthy(c.sourceRoot) && c.sourceRoot.value in roots }

  function WithBoundRoot(c: Candidate, roots: set<string>, key: string, category: Category): Classified {
    if !BoundRoot(c, roots) || !SafeRelativeKey(key) then INVALID else Classified(category, Some("local"), Some(key))
  }

  function Classify(c: Candidate, roots: set<string>, relative: Relative): Classified {
    if c.value.None? then Classified(NullValue, None, None)
    else
      var value := c.value.value;
      if value == "" || |value| > 4096 || '\0' in value then INVALID
      else if Tagged(value).Some? then
        var (tag, key) := Tagged(value).value;
        if !SafeRelativeKey(key) then INVALID
        else if Truthy(c.declaredProvider) && c.declaredProvider.value != tag then
          Classified(Mixed, Some(tag), Some(key))
        else if tag == "supabase" then Classified(Supabase, Some(tag), Some(key))
        else if tag == "local" then WithBoundRoot(c, roots, key, LocalTagged)
        else Classified(Mixed, Some(tag), Some(key))
      else if c.declaredProvider == Some("supabase") then
        if SafeRelativeKey(value) then Classified(Supabase, Some("supabase"), Some(value)) else INVALID
      else if Truthy(c.declaredProvider) && c.declaredProvider.value != "local" then
        Classified(Mixed, c.declaredProvider, if SafeRelativeKey(value) then Some(value) else None)
      else if IsAbsolute(value) then
        if !BoundRoot(c, roots) then INVALID
        else
          var key := relative(c.sourceRoot.value, value);
          if key.Some? && SafeRelativeKey(key.value) then Classified(AbsoluteContained, Some("local"), key) else INVALID
      else WithBoundRoot(c, roots, value, UntaggedContained)
  }

  predicate IsStable(model: Model, status: string) {
    match model
    case StorageTombstone => status != "PENDING"
    case ReportExport => status != "PENDING" && status != "CREATING"
    case _ => status != "PENDING" && status != "VALIDATING"
  }

  predicate ValidCandidate(c: Candidate) {
    && IsUuid(c.recordId) && c.status != "" && |c.status| <= 64
    && (Truthy(c.expectedHash) ==> IsHash(c.expectedHash.value))
  }

  function Inventoried(c: Candidate, roots: set<string>, relative: Relative): Result<Entry> {
    if !ValidCandidate(c) then Failure("LEGACY_REFERENCE_INVALID")
    else
      var classified := Classify(c, roots, relative);
      var orphan := c.observation == Missing && classified.category != NullValue && classified.category != Invalid;
      Success(Entry(c, classified,
        IsStable(c.model, c.status) && !orphan &&
        IsEligible(classified.category)))
  }

  // ---- Plans ----------------------------------------------------------------------------------

  function ModelSegment(m: Model): string {
    match m
    case UploadBatch => "upload-batch"
    case Cafe24UploadBatch => "cafe24upload-batch"
    case CoupangUploadBatch => "coupang-upload-batch"
    case ReportExport => "report-export"
    case StorageTombstone => "storage-tombstone"
  }

  function FieldSegment(f: Field): string {
    match f
    case StoredFilePath => "stored-file-path"
    case FilePath => "file-path"
    case OriginalKey => "original-key"
    case TrashKey => "trash-key"
  }

  function TargetKey(m: Model, recordId: string, f: Field, hash: string): string {
    "legacy/" + (ModelSegment(m) + "/" + (recordId + "/" + (FieldSegment(f) + "/" + hash)))
  }

  function CreatePlan(entry: Entry, source: Source): Result<Plan> {
    var c := entry.candidate;
    if !entry.migrationCandidate || !Truthy(c.value) || !Truthy(c.sourceRoot) || !Truthy(entry.classified.key) then
      Failure("LEGACY_MIGRATION_ENTRY_NOT_ELIGIBLE")
    else if !IsHash(source.hash) then Failure("LEGACY_MIGRATION_SOURCE_HASH_INVALID")
    else if source.size > MAX_SOURCE_BYTES then Failure("LEGACY_MIGRATION_SOURCE_SIZE_INVALID")
    else if Truthy(c.expectedHash) && c.expectedHash.value != source.hash then
      Failure("LEGACY_MIGRATION_DATABASE_HASH_MISMATCH")
    else if c.expectedSize.Some? && c.expectedSize.value != source.size then
      Failure("LEGACY_MIGRATION_DATABASE_SIZE_MISMATCH")
    else
      var key := TargetKey(c.model, c.recordId, c.field, source.hash);
      Success(Plan(
        c.model, c.recordId, c.field, c.value.value,
        if Truthy(c.declaredProvider) then c.declaredProvider else None, c.status,
        c.sourceRoot.value, entry.classified.key.value, source.hash, source.size,
        key, if c.model == StorageTombstone then key else "supabase:" + key))
  }

  /** What every plan made from an inventoried reference satisfies. */
  predicate WellFormed(p: Plan) {
    && IsUuid(p.recordId) && IsHash(p.hash) && p.size <= MAX_SOURCE_BYTES
    && p.targetKey == TargetKey(p.model, p.recordId, p.field, p.hash)
    && p.targetReference == (if p.model == StorageTombstone then p.targetKey else "supabase:" + p.targetKey)
    && !StartsWith(p.oldValue, "supabase:")
    && (p.oldProvider == None || p.oldProvider == Some("local"))
  }

  lemma SupabaseValueIsTagged(value: string)
    requires StartsWith(value, "supabase:") && !IsAbsolute(value)
    ensures ':' in value
    ensures Tagged(value).Some? ==> Tagged(value).value.0 == "supabase"
  {
    assert value[8] == ':';
    assert forall i :: 0 <= i < 8 ==> value[i] != ':';
    assert IndexOf(value, ':') == 8;
  }

  predicate IsEligible(category: Category) { category in {LocalTagged, UntaggedContained, AbsoluteContained} }

  lemma EligibleIsLocal(c: Candidate, roots: set<string>, relative: Relative)
    requires c.value.Some? && IsEligible(Classify(c, roots, relative).category)
    ensures !StartsWith(c.value.value, "supabase:")
    ensures Truthy(c.declaredProvider) ==> c.declaredProvider.value == "local"
  {
    var value := c.value.value;
    if StartsWith(value, "supabase:") {
      assert value[0] == 's' && value[1] == 'u';
      SupabaseValueIsTagged(value);
    }
  }

  /** An eligible reference never already points at the target store, so its plan is well formed. */
  lemma CreatedPlanWellFormed(c: Candidate, roots: set<string>, relative: Relative, source: Source)
    requires Inventoried(c, roots, relative).Success?
    requires CreatePlan(Inventoried(c, roots, relative).value, source).Success?
    ensures WellFormed(CreatePlan(Inventoried(c, roots, relative).value, source).value)
  {
    EligibleIsLocal(c, roots, relative);
  }

  /** The database row is settled and its object is not known to be missing. */
  predicate Settled(c: Candidate) {
    && c.status != "PENDING" && c.observation != Missing && (c.model == ReportExport ==> c.status != "CREATING")
    && (c.model != ReportExport && c.model != StorageTombstone ==> c.status != "VALIDATING")
  }

  /** The source is a digested body within the limit that agrees with what the database expects of it. */
  predicate SourceFits(c: Candidate, source: Source) {
    && IsHash(source.hash) && source.size <= 24 * 1024 * 1024
    && (c.expectedHash.Some? && c.expectedHash.value != "" ==> source.hash == c.expectedHash.value)
    && (c.expectedSize.Some? ==> source.size == c.expectedSize.value)
  }

  lemma EligibleHasAll(c: Candidate, roots: set<string>, relative: Relative)
    requires IsEligible(Classify(c, roots, relative).category)
    ensures Truthy(c.value) && Truthy(c.sourceRoot) && c.sourceRoot.value in roots
    ensures Truthy(Classify(c, roots, relative).key) && SafeRelativeKey(Classify(c, roots, relative).key.value)
  {
  }

  /** A reference gets a plan exactly if it is migratable and settled and the source fits it. */
  lemma PlanCreatedExactly(c: Candidate, roots: set<string>, relative: Relative, source: Source)
    requires ValidCandidate(c)
    ensures CreatePlan(Inventoried(c, roots, relative).value, source).Success? <==>
      IsEligible(Classify(c, roots, relative).category) && Settled(c) && SourceFits(c, source)
  {
    if IsEligible(Classify(c, roots, relative).category) { EligibleHasAll(c, roots, relative); }
  }

  /** The plan takes the reference, as it stands, from its own root and key to its target. */
  lemma PlanIsOfItsReference(c: Candidate, roots: set<string>, relative: Relative, source: Source)
    requires ValidCandidate(c) && CreatePlan(Inventoried(c, roots, relative).value, source).Success?
    ensures var p := CreatePlan(Inventoried(c, roots, relative).value, source).value;
      && p.model == c.model && p.recordId == c.recordId && p.field == c.field
      && Some(p.oldValue) == c.value && p.oldStatus == c.status
      && p.oldProvider == (if c.declaredProvider == Some("local") then Some("local") else None)
      && Some(p.sourceRoot) == c.sourceRoot && p.sourceRoot in roots
      && Some(p.sourceKey) == Classify(c, roots, relative).key && SafeRelativeKey(p.sourceKey)
      && p.hash == source.hash && p.size == source.size
  {
    EligibleHasAll(c, roots, relative);
    EligibleIsLocal(c, roots, relative);
  }

  /** What follows the tag of a local value, the path of an absolute one below its root, or the value itself. */
  function LocalKey(value: string, root: string, relative: Relative): Option<string> {
    if Tagged(value).Some? then if "local:" <= value then Some(value[6..]) else None
    else if IsAbsolute(value) then relative(root, value)
    else Some(value)
  }

  /** The reference is not declared to be anywhere else and lies in an approved root. */
  predicate HeldLocally(c: Candidate, roots: set<string>) {
    && c.declaredProvider in {None, Some(""), Some("local")}
    && c.sourceRoot.Some? && c.sourceRoot.value != "" && c.sourceRoot.value in roots
  }

  /**
   A reference is migratable exactly if it is local: not declared to be anywhere else, in an approved root, and with a
   safe key; and then that is its key.
   */
  lemma MigratableExactly(c: Candidate, roots: set<string>, relative: Relative)
    requires c.value.Some?
    ensures
      var r, value := Classify(c, roots, relative), c.value.value;
      && (r.category in {LocalTagged, UntaggedContained, AbsoluteContained} <==>
            && 1 <= |value| <= 4096 && '\0' !in value && HeldLocally(c, roots)
            && LocalKey(value, c.sourceRoot.value, relative).Some?
            && SafeRelativeKey(LocalKey(value, c.sourceRoot.value, relative).value))
      && (r.category in {LocalTagged, UntaggedContained, AbsoluteContained} ==>
            r.key == LocalKey(value, c.sourceRoot.value, relative))
  {
    if Tagged(c.value.value).Some? {
      TaggedLocal(c.value.value);
      var (tag, key) := Tagged(c.value.value).value;
      if tag == "local" { assert key == c.value.value[6..]; }
    }
  }

  lemma TaggedLocal(value: string)
    requires Tagged(value).Some?
    ensures Tagged(value).value.0 == "local" <==> "local:" <= value
    ensures "local:" <= value ==> Tagged(value).value.1 == value[6..]
  {
    var colon := IndexOf(value, ':');
    assert value == value[..colon] + ":" + value[colon + 1..];
    if "local:" <= value {
      assert value[5] == ':' && forall i :: 0 <= i < 5 ==> value[i] == "local"[i];
      assert colon == 5 && value[..5] == "local";
    }
  }

  datatype Reference = Reference(value: Option<string>, provider: Option<string>, status: string)

  predicate IsDesired(p: Plan, r: Reference) {
    && r.value == Some(p.targetReference) && r.status == p.oldStatus
    && (p.model == StorageTombstone ==> r.provider == Some("supabase"))
  }

  predicate IsOriginal(p: Plan, r: Reference) {
    && r.value == Some(p.oldValue) && r.status == p.oldStatus
    && (p.model == StorageTombstone ==> r.provider == p.oldProvider)
  }

  /** No reference is both as planned from and as planned to. */
  lemma OriginalAndDesiredDisjoint(p: Plan, r: Reference)
    requires WellFormed(p)
    ensures !(IsDesired(p, r) && IsOriginal(p, r))
  {
    if p.model != StorageTombstone {
      assert p.targetReference[..9] == "supabase:";
      assert StartsWith(p.targetReference, "supabase:");
    }
  }

  // ---- Target keys ----------------------------------------------------------------------------

  lemma SlashSplit(a: string, x: string, b: string, y: string)
    requires '/' !in a && '/' !in b && a + "/" + x == b + "/" + y
    ensures a == b && x == y
  {
    var s := a + "/" + x;
    assert s[|a|] == '/' && s[|b|] == '/';
    assert forall i :: 0 <= i < |a| ==> s[i] == a[i] && a[i] in a;
    assert forall i :: 0 <= i < |b| ==> s[i] == b[i] && b[i] in b;
    assert |a| == |b|;
    assert a == s[..|a|] && b == s[..|b|];
    assert x == s[|a| + 1..] && y == s[|b| + 1..];
  }

  lemma ModelSegments(m: Model, n: Model)
    ensures '/' !in ModelSegment(m)
    ensures ModelSegment(m) == ModelSegment(n) ==> m == n
  {
    if ModelSegment(m) == ModelSegment(n) { assert ModelSegment(m)[0] == ModelSegment(n)[0]; }
  }

  lemma FieldSegments(f: Field, g: Field)
    ensures '/' !in FieldSegment(f)
    ensures FieldSegment(f) == FieldSegment(g) ==> f == g
  {
    if FieldSegment(f) == FieldSegment(g) { assert FieldSegment(f)[0] == FieldSegment(g)[0]; }
  }

  /** Two plans share a target key only if they are for the same reference and the same content. */
  lemma TargetKeysDistinct(p: Plan, q: Plan)
    requires WellFormed(p) && WellFormed(q) && p.targetKey == q.targetKey
    ensures p.model == q.model && p.recordId == q.recordId && p.field == q.field && p.hash == q.hash
  {
    ModelSegments(p.model, q.model);
    ModelSegments(q.model, p.model);
    FieldSegments(p.field, q.field);
    FieldSegments(q.field, p.field);
    var tailP, tailQ := FieldSegment(p.field) + "/" + p.hash, FieldSegment(q.field) + "/" + q.hash;
    var restP, restQ := p.recordId + "/" + tailP, q.recordId + "/" + tailQ;
    assert p.targetKey[7..] == ModelSegment(p.model) + "/" + restP;
    assert q.targetKey[7..] == ModelSegment(q.model) + "/" + restQ;
    SlashSplit(ModelSegment(p.model), restP, ModelSegment(q.model), restQ);
    SlashSplit(p.recordId, tailP, q.recordId, tailQ);
    SlashSplit(FieldSegment(p.field), p.hash, FieldSegment(q.field), q.hash);
  }
}

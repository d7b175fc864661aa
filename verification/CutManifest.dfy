/**
 The consistent backup cut and its manifest (apps/api/maintenance/backup/cut-manifest.ts).

 The answers of the adapter are inputs, each of which may be a failure. Digests of canonical JSON are
 functions of which nothing is assumed but that they give 64 hexadecimal digits. A destination is a
 value that is either admitted as it is or refused; the evidence record is left out.
 */
module CutManifest {
  import opened Outcomes
  import opened Sorting
  import opened Text
  import opened Json
  import opened Traversal

  const MAX_ENTRIES := 1_000_000

  datatype Reference = Reference(
    model: string, recordId: string, field: string, provider: string, key: string, hash: string, size: nat,
    state: string)

  datatype BackedUp = BackedUp(provider: string, key: string, size: nat, hash: string, locator: string)

  datatype Cut = Cut(backupId: string, watermark: string, dumpHash: string, migrationDigest: string, kpiDigest: string)

  datatype Drain = Drain(inFlight: int, pending: int, creating: int)

  datatype Target = Target(sha256: string, projectRef: string)

  datatype Body = Body(
    cutId: string, targetSha256: string, projectRef: string, bucket: string, receipt: string, cut: Cut,
    destination: string,
    references: seq<Reference>, objects: seq<BackedUp>, before: string, after: string, objectDigest: string,
    result: string)

  datatype Manifest = Manifest(body: Body, digest: string)

  datatype Outcome = Pass(manifest: Manifest) | Fail(code: string)

  datatype Adapter = Adapter(
    writeBlock: Result<string>, drain: Result<Drain>, capture: Result<Cut>, before: Result<seq<Reference>>,
    copy: seq<Reference> -> Result<seq<BackedUp>>, watermark: Result<string>, after: Result<seq<Reference>>,
    release: Result<()>)

  type Collation = (string, string) -> bool

  datatype Setting = Setting(
    le: Collation, digestReferences: seq<Reference> -> string, digestObjects: seq<BackedUp> -> string,
    digestBody: Body -> string, destinationAdmitted: string -> bool)

  ghost predicate Lawful(s: Setting) {
    && TotalOrder(s.le) && (forall x :: IsHash(s.digestReferences(x))) && (forall x :: IsHash(s.digestObjects(x)))
    && forall x :: IsHash(s.digestBody(x))
  }

  // ---- Entries --------------------------------------------------------------------------------

  predicate IsProvider(s: string) {
    1 <= |s| <= 32 && IsLower(s[0]) && forall i :: 0 <= i < |s| ==> IsLower(s[i]) || IsDigit(s[i]) || s[i] == '-'
  }

  predicate SafeKey(s: string) {
    && s != "" && Units(s) <= 1024 && '\\' !in s && '\0' !in s && s[0] != '/'
    && forall segment :: segment in Segments(s) ==> segment != "" && segment != "." && segment != ".."
  }

  const FIELDS := {"storedFilePath", "filePath", "originalKey", "trashKey"}

  const MODELS := {"UploadBatch", "Cafe24UploadBatch", "CoupangUploadBatch", "ReportExport", "StorageTombstone"}

  function CheckReference(r: Reference): Result<Reference> {
    if r.model !in MODELS || !IsUuid(r.recordId) || r.field !in FIELDS
       || r.state == "" || Units(r.state) > 64 then Failure("BACKUP_REFERENCE_IDENTITY_INVALID")
    else if !IsProvider(r.provider) || !SafeKey(r.key) then Failure("BACKUP_REFERENCE_LOCATION_INVALID")
    else if !IsHash(r.hash) then Failure("BACKUP_REFERENCE_HASH_INVALID")
    else Success(r)
  }

  function CheckObject(o: BackedUp): Result<BackedUp> {
    if !IsProvider(o.provider) || !SafeKey(o.key) then Failure("BACKUP_OBJECT_LOCATION_INVALID")
    else if !IsHash(o.hash) then Failure("BACKUP_OBJECT_HASH_INVALID")
    else if !SafeKey(o.locator) then Failure("BACKUP_OBJECT_METADATA_INVALID")
    else Success(o)
  }

  function ReferenceName(r: Reference): string { r.model + "|" + r.recordId + "|" + r.field }

  function ObjectName(o: BackedUp): string { o.provider + "|" + o.key }

  function ByReference(le: Collation): (Reference, Reference) -> bool {
    (a: Reference, b: Reference) => le(ReferenceName(a), ReferenceName(b))
  }

  function ByObject(le: Collation): (BackedUp, BackedUp) -> bool {
    (a: BackedUp, b: BackedUp) => le(ObjectName(a), ObjectName(b))
  }

  /** Check every entry, then sort; entries of equal name keep their order. */
  function Normalize<T>(check: T -> Result<T>, le: (T, T) -> bool, xs: seq<T>, limit: string): Result<seq<T>> {
    if |xs| > MAX_ENTRIES then Failure(limit)
    else
      var checked := Traverse(check, xs);
      if checked.Failure? then checked else Success(Sort(le, checked.value))
  }

  function NormalizeReferences(s: Setting, xs: seq<Reference>): Result<seq<Reference>> {
    Normalize(CheckReference, ByReference(s.le), xs, "BACKUP_REFERENCE_LIMIT")
  }

  function NormalizeObjects(s: Setting, xs: seq<BackedUp>): Result<seq<BackedUp>> {
    Normalize(CheckObject, ByObject(s.le), xs, "BACKUP_OBJECT_LIMIT")
  }

  // ---- Coverage -------------------------------------------------------------------------------

  /** The object listed last under a provider and key, as in a map built in list order. */
  function Lookup(objects: seq<BackedUp>, provider: string, key: string): (r: Option<BackedUp>)
    ensures r.Some? ==> r.value in objects && r.value.provider == provider && r.value.key == key
    ensures r.None? ==> forall o :: o in objects ==> o.provider != provider || o.key != key
  {
    if objects == [] then None
    else
      var last, earlier := objects[|objects| - 1], objects[..|objects| - 1];
      assert objects == earlier + [last];
      if last.provider == provider && last.key == key then Some(last) else Lookup(earlier, provider, key)
  }

  predicate CoveredBy(r: Reference, o: BackedUp) {
    o.provider == r.provider && o.key == r.key && o.size == r.size && o.hash == r.hash
  }

  predicate Covers(objects: seq<BackedUp>, r: Reference) {
    var found := Lookup(objects, r.provider, r.key);
    found.Some? && found.value.size == r.size && found.value.hash == r.hash
  }

  predicate AllCovered(references: seq<Reference>, objects: seq<BackedUp>) {
    forall i :: 0 <= i < |references| ==> Covers(objects, references[i])
  }

  /** The source's map and loop. */
  method AssertObjectCoverage(references: seq<Reference>, objects: seq<BackedUp>) returns (covered: bool)
    ensures covered <==> AllCovered(references, objects)
  {
    var index: map<(string, string), BackedUp> := map[];
    for n := 0 to |objects|
      invariant forall p, k :: (p, k) in index <==> Lookup(objects[..n], p, k).Some?
      invariant forall p, k :: (p, k) in index ==> Lookup(objects[..n], p, k) == Some(index[(p, k)])
    {
      assert objects[..n + 1][..n] == objects[..n];
      index := index[(objects[n].provider, objects[n].key) := objects[n]];
    }
    assert objects[..|objects|] == objects;
    for n := 0 to |references|
      invariant forall i :: 0 <= i < n ==> Covers(objects, references[i])
    {
      var r := references[n];
      if (r.provider, r.key) !in index { return false; }
      var found := index[(r.provider, r.key)];
      if found.size != r.size || found.hash != r.hash { return false; }
    }
    covered := true;
  }

  // ---- The cut --------------------------------------------------------------------------------

  predicate IsBucket(s: string) {
    && 1 <= |s| <= 63 && (IsLower(s[0]) || IsDigit(s[0]))
    && forall i :: 0 <= i < |s| ==> IsLower(s[i]) || IsDigit(s[i]) || s[i] in "._-"
  }

  function CheckCut(c: Cut): Result<Cut> {
    if c.backupId == "" || Units(c.backupId) > 512 || c.watermark == "" || Units(c.watermark) > 512 then
      Failure("BACKUP_DATABASE_CUT_INVALID")
    else if !IsHash(c.dumpHash) then Failure("BACKUP_DATABASE_HASH_INVALID")
    else if !IsHash(c.migrationDigest) then Failure("BACKUP_DATABASE_MIGRATION_DIGEST_INVALID")
    else if !IsHash(c.kpiDigest) then Failure("BACKUP_DATABASE_KPI_DIGEST_INVALID")
    else Success(c)
  }

  function BodyOf(
      s: Setting, target: Target, bucket: string, destination: string, cutId: string, receipt: string, cut: Cut,
      references: seq<Reference>, after: seq<Reference>, objects: seq<BackedUp>): Body {
    Body(cutId, target.sha256, target.projectRef, bucket, receipt, cut, destination, references, objects,
      s.digestReferences(references), s.digestReferences(after), s.digestObjects(objects), "PASS")
  }

  predicate Drained(d: Drain) { d.inFlight == 0 && d.pending == 0 && d.creating == 0 }

  predicate InputAdmitted(s: Setting, bucket: string, destination: string, cutId: string) {
    IsBucket(bucket) && s.destinationAdmitted(destination) && IsUuid(cutId)
  }

  /** What has to be observed for a cut to pass. */
  ghost predicate Consistent(s: Setting, a: Adapter) {
    && a.writeBlock.Success? && IsHash(a.writeBlock.value)
    && a.drain.Success? && Drained(a.drain.value)
    && a.capture.Success? && CheckCut(a.capture.value).Success?
    && a.before.Success? && NormalizeReferences(s, a.before.value).Success?
    && var references := NormalizeReferences(s, a.before.value).value;
    && a.copy(references).Success? && NormalizeObjects(s, a.copy(references).value).Success?
    && AllCovered(references, NormalizeObjects(s, a.copy(references).value).value)
    && a.watermark == Success(a.capture.value.watermark)
    && a.after.Success? && NormalizeReferences(s, a.after.value).Success?
    && s.digestReferences(NormalizeReferences(s, a.after.value).value) == s.digestReferences(references)
  }

  ghost function ManifestFor(
      s: Setting, a: Adapter, target: Target, bucket: string, destination: string, cutId: string): Manifest
    requires Consistent(s, a)
  {
    var references := NormalizeReferences(s, a.before.value).value;
    var body := BodyOf(s, target, bucket, destination, cutId, a.writeBlock.value, a.capture.value, references,
      NormalizeReferences(s, a.after.value).value, NormalizeObjects(s, a.copy(references).value).value);
    Manifest(body, s.digestBody(body))
  }

  /** The part of the cut inside `try`, once the write block is confirmed. */
  method ObserveCut(
      s: Setting, a: Adapter, target: Target, bucket: string, destination: string, cutId: string, receipt: string)
    returns (r: Outcome)
    requires a.writeBlock == Success(receipt)
    ensures r.Pass? <==> Consistent(s, a)
    ensures r.Pass? ==> r.manifest == ManifestFor(s, a, target, bucket, destination, cutId)
  {
    if !IsHash(receipt) { return Fail("BACKUP_WRITE_BLOCK_RECEIPT_INVALID"); }
    if a.drain.Failure? { return Fail(a.drain.code); }
    var drain := a.drain.value;
    if drain.inFlight < 0 || drain.pending < 0 || drain.creating < 0 { return Fail("BACKUP_DRAIN_STATE_INVALID"); }
    if drain.inFlight != 0 || drain.pending != 0 || drain.creating != 0 { return Fail("BACKUP_DRAIN_NOT_ZERO"); }
    if a.capture.Failure? { return Fail(a.capture.code); }
    var cut := CheckCut(a.capture.value);
    if cut.Failure? { return Fail(cut.code); }
    if a.before.Failure? { return Fail(a.before.code); }
    var references := NormalizeReferences(s, a.before.value);
    if references.Failure? { return Fail(references.code); }
    var copied := a.copy(references.value);
    if copied.Failure? { return Fail(copied.code); }
    var objects := NormalizeObjects(s, copied.value);
    if objects.Failure? { return Fail(objects.code); }
    var covered := AssertObjectCoverage(references.value, objects.value);
    if !covered { return Fail("BACKUP_OBJECT_COVERAGE_MISMATCH"); }
    if a.watermark.Failure? { return Fail(a.watermark.code); }
    if a.after.Failure? { return Fail(a.after.code); }
    var after := NormalizeReferences(s, a.after.value);
    if after.Failure? { return Fail(after.code); }
    if || a.watermark.value != cut.value.watermark
       || s.digestReferences(after.value) != s.digestReferences(references.value)
    {
      return Fail("BACKUP_CROSS_SYSTEM_DRIFT");
    }
    var body := BodyOf(
      s, target, bucket, destination, cutId, receipt, cut.value, references.value, after.value, objects.value);
    r := Pass(Manifest(body, s.digestBody(body)));
  }

  /**
   The whole cut. `requested` is the receipt with which the release of the write block was requested:
   whenever a write block was confirmed with any receipt at all, whatever happened afterwards. If that
   request fails, its failure is what the caller sees, even of a cut that had passed.
   */
  method RunConsistentBackupCut(
      s: Setting, a: Adapter, target: Target, bucket: string, destination: string, cutId: string)
    returns (r: Result<Outcome>, requested: Option<string>)
    ensures
      var admitted, releases := InputAdmitted(s, bucket, destination, cutId), Truthy(Receipt(a));
      && requested == (if admitted && releases then Receipt(a) else None)
      && (r.Success? <==> admitted && (releases ==> a.release.Success?))
      && ((r.Success? && r.value.Pass?) <==> admitted && Consistent(s, a) && a.release.Success?)
      && (r.Success? && r.value.Pass? ==> r.value.manifest == ManifestFor(s, a, target, bucket, destination, cutId))
  {
    requested := None;
    if !IsBucket(bucket) { return Failure("BACKUP_BUCKET_INVALID"), requested; }
    if !s.destinationAdmitted(destination) { return Failure("BACKUP_DESTINATION_INVALID"), requested; }
    if !IsUuid(cutId) { return Failure("BACKUP_CUT_ID_INVALID"), requested; }
    if a.writeBlock.Failure? { return Success(Fail(a.writeBlock.code)), requested; }
    var receipt := a.writeBlock.value;
    var outcome := ObserveCut(s, a, target, bucket, destination, cutId, receipt);
    if receipt != "" {
      requested := Some(receipt);
      if a.release.Failure? { return Failure(a.release.code), requested; }
    }
    r := Success(outcome);
  }

  function Receipt(a: Adapter): Option<string> { if a.writeBlock.Success? then Some(a.writeBlock.value) else None }

  // ---- Reading a manifest back ----------------------------------------------------------------

  predicate IsProjectRef(s: string) { |s| == 20 && forall i :: 0 <= i < 20 ==> IsLower(s[i]) }

  predicate Identified(b: Body) {
    && b.result == "PASS" && IsUuid(b.cutId) && IsProjectRef(b.projectRef) && b.receipt != "" && Units(b.receipt) <= 512
    && IsBucket(b.bucket) && IsHash(b.targetSha256)
  }

  function ParseManifest(s: Setting, m: Manifest): Result<Manifest> {
    if !Identified(m.body) then Failure("BACKUP_MANIFEST_IDENTITY_INVALID")
    else if CheckCut(m.body.cut).Failure? then Failure(CheckCut(m.body.cut).code)
    else if !s.destinationAdmitted(m.body.destination) then Failure("BACKUP_DESTINATION_INVALID")
    else
      var references, objects := NormalizeReferences(s, m.body.references), NormalizeObjects(s, m.body.objects);
      if references.Failure? then Failure(references.code)
      else if objects.Failure? then Failure(objects.code)
      else
        var body := m.body.(references := references.value, objects := objects.value);
        if !IsHash(body.before) || !IsHash(body.after) || !IsHash(body.objectDigest) || !IsHash(m.digest) then
          Failure("BACKUP_MANIFEST_DIGEST_INVALID")
        else if body.before != s.digestReferences(body.references) || body.after != s.digestReferences(body.references)
             || body.objectDigest != s.digestObjects(body.objects) || m.digest != s.digestBody(body) then
          Failure("BACKUP_MANIFEST_DIGEST_MISMATCH")
        else if !AllCovered(body.references, body.objects) then Failure("BACKUP_OBJECT_COVERAGE_MISMATCH")
        else Success(Manifest(body, m.digest))
  }

  // ---- Normalisation --------------------------------------------------------------------------

  ghost predicate KeepsEntry<T(!new)>(check: T -> Result<T>) { forall x :: check(x).Success? ==> check(x).value == x }

  /** Normalising permutes its input and leaves nothing for a second time. */
  lemma NormalizeIdempotent<T(!new)>(check: T -> Result<T>, le: (T, T) -> bool, xs: seq<T>, limit: string)
    requires TotalPreorder(le) && KeepsEntry(check) && Normalize(check, le, xs, limit).Success?
    ensures var ys := Normalize(check, le, xs, limit).value;
      && multiset(ys) == multiset(xs) && Sorted(le, ys) && Normalize(check, le, ys, limit) == Success(ys)
  {
    TraverseSpec(check, xs);
    var checked := Traverse(check, xs).value;
    assert checked == xs;
    SortSpec(le, xs);
    SortMembers(le, xs);
    var ys := Sort(le, xs);
    assert |ys| == |multiset(ys)| == |xs|;
    TraverseSpec(check, ys);
    forall i | 0 <= i < |ys| ensures check(ys[i]).Success? {
      assert ys[i] in ys;
      var j :| 0 <= j < |xs| && xs[j] == ys[i];
    }
    assert Traverse(check, ys).value == ys;
    SortFixpoint(le, ys);
  }

  lemma OrdersTotal(le: Collation)
    requires TotalOrder(le)
    ensures TotalPreorder(ByReference(le)) && TotalPreorder(ByObject(le))
  {
    NamedOrder(le, ReferenceName, ByReference(le));
    NamedOrder(le, ObjectName, ByObject(le));
  }

  lemma NamedOrder<T(!new)>(le: Collation, name: T -> string, order: (T, T) -> bool)
    requires TotalOrder(le) && forall a, b :: order(a, b) == le(name(a), name(b))
    ensures TotalPreorder(order)
  {
    forall a, b ensures order(a, b) || order(b, a) {
      assert le(name(a), name(b)) || le(name(b), name(a));
    }
    forall a, b, c | order(a, b) && order(b, c) ensures order(a, c) {
      assert le(name(a), name(b)) && le(name(b), name(c));
    }
  }

  lemma ReferencesIdempotent(s: Setting, xs: seq<Reference>)
    requires TotalOrder(s.le) && NormalizeReferences(s, xs).Success?
    ensures var ys := NormalizeReferences(s, xs).value;
      multiset(ys) == multiset(xs) && NormalizeReferences(s, ys) == Success(ys)
  {
    OrdersTotal(s.le);
    NormalizeIdempotent(CheckReference, ByReference(s.le), xs, "BACKUP_REFERENCE_LIMIT");
  }

  lemma ObjectsIdempotent(s: Setting, xs: seq<BackedUp>)
    requires TotalOrder(s.le) && NormalizeObjects(s, xs).Success?
    ensures var ys := NormalizeObjects(s, xs).value;
      multiset(ys) == multiset(xs) && NormalizeObjects(s, ys) == Success(ys)
  {
    OrdersTotal(s.le);
    NormalizeIdempotent(CheckObject, ByObject(s.le), xs, "BACKUP_OBJECT_LIMIT");
  }

  // ---- What PASS means ------------------------------------------------------------------------

  /** The manifest of a passing cut is accepted unchanged. */
  lemma PassedManifestParses(s: Setting, a: Adapter, target: Target, bucket: string, destination: string, cutId: string)
    requires Lawful(s) && InputAdmitted(s, bucket, destination, cutId) && Consistent(s, a)
    requires IsHash(target.sha256) && IsProjectRef(target.projectRef)
    ensures var m := ManifestFor(s, a, target, bucket, destination, cutId); ParseManifest(s, m) == Success(m)
  {
    var m := ManifestFor(s, a, target, bucket, destination, cutId);
    ReferencesIdempotent(s, a.before.value);
    ObjectsIdempotent(s, a.copy(m.body.references).value);
    HashUnits(a.writeBlock.value);
    assert m.body.(references := m.body.references, objects := m.body.objects) == m.body;
  }

  lemma HashUnits(h: string)
    requires IsHash(h)
    ensures h != "" && Units(h) <= 512
  {
    UnitsAtMost(h);
  }

  lemma {:induction false} UnitsAtMost(s: string)
    ensures Units(s) <= 2 * |s|
  {
    if s != "" { UnitsAtMost(s[1..]); }
  }

  /**
   A passing cut saw the same watermark and, short of a digest collision between the two lists, exactly
   the same references before and after; each of them is covered by a copied object of equal size and digest.
   */
  lemma PassIsConsistent(s: Setting, a: Adapter, r: Reference)
    requires Lawful(s) && Consistent(s, a)
    requires
      var before, after := NormalizeReferences(s, a.before.value).value, NormalizeReferences(s, a.after.value).value;
      s.digestReferences(before) == s.digestReferences(after) ==> before == after
    ensures a.watermark == Success(a.capture.value.watermark) && multiset(a.before.value) == multiset(a.after.value)
    ensures r in a.before.value ==>
      var copied := a.copy(NormalizeReferences(s, a.before.value).value).value;
      exists o :: o in copied && CoveredBy(r, o)
  {
    ReferencesIdempotent(s, a.before.value);
    ReferencesIdempotent(s, a.after.value);
    var references := NormalizeReferences(s, a.before.value).value;
    var copied := a.copy(references).value;
    ObjectsIdempotent(s, copied);
    var objects := NormalizeObjects(s, copied).value;
    if r in a.before.value {
      assert r in multiset(references);
      var i :| 0 <= i < |references| && references[i] == r;
      assert Covers(objects, references[i]);
      var o := Lookup(objects, r.provider, r.key).value;
      assert o in multiset(copied);
      assert CoveredBy(r, o);
    }
  }

  /** Two references that disagree about the content of one key cannot both be covered, so such a cut fails. */
  lemma DisagreementNeverPasses(s: Setting, a: Adapter, i: nat, j: nat)
    requires Lawful(s) && a.before.Success? && i < |a.before.value| && j < |a.before.value|
    requires var x, y := a.before.value[i], a.before.value[j];
      x.provider == y.provider && x.key == y.key && (x.size != y.size || x.hash != y.hash)
    ensures !Consistent(s, a)
  {
    if Consistent(s, a) {
      var references := NormalizeReferences(s, a.before.value).value;
      var objects := NormalizeObjects(s, a.copy(references).value).value;
      CoveredOriginal(s, a.before.value, references, objects, i);
      CoveredOriginal(s, a.before.value, references, objects, j);
    }
  }

  lemma CoveredOriginal(s: Setting, xs: seq<Reference>, references: seq<Reference>, objects: seq<BackedUp>, i: nat)
    requires TotalOrder(s.le) && NormalizeReferences(s, xs) == Success(references) && AllCovered(references, objects)
    requires i < |xs|
    ensures Covers(objects, xs[i])
  {
    ReferencesIdempotent(s, xs);
    assert xs[i] in multiset(references);
    var k :| 0 <= k < |references| && references[k] == xs[i];
  }
}

/**
 When a consistent cut passes and what its manifest tells a reader (apps/api/maintenance/backup/cut-manifest.ts).
 */
module CutOutcomes {
  import opened Outcomes
  import opened Sorting
  import opened Text
  import opened Json
  import opened Traversal
  import opened CutManifest

  predicate GoodReference(r: Reference) {
    && r.model in {"UploadBatch", "Cafe24UploadBatch", "CoupangUploadBatch", "ReportExport", "StorageTombstone"}
    && r.field in {"storedFilePath", "filePath", "originalKey", "trashKey"}
    && IsUuid(r.recordId) && 1 <= |r.state| && Units(r.state) <= 64
    && IsProvider(r.provider) && SafeKey(r.key) && IsHash(r.hash)
  }

  predicate GoodObject(o: BackedUp) { IsProvider(o.provider) && SafeKey(o.key) && IsHash(o.hash) && SafeKey(o.locator) }

  predicate GoodReferences(xs: seq<Reference>) {
    |xs| <= 1_000_000 && forall i :: 0 <= i < |xs| ==> GoodReference(xs[i])
  }

  predicate GoodObjects(xs: seq<BackedUp>) { |xs| <= 1_000_000 && forall i :: 0 <= i < |xs| ==> GoodObject(xs[i]) }

  predicate GoodCut(c: Cut) {
    && 1 <= |c.backupId| && Units(c.backupId) <= 512 && 1 <= |c.watermark| && Units(c.watermark) <= 512
    && IsHash(c.dumpHash) && IsHash(c.migrationDigest) && IsHash(c.kpiDigest)
  }

  lemma ReferencesNormalize(s: Setting, xs: seq<Reference>)
    ensures NormalizeReferences(s, xs).Success? <==> GoodReferences(xs)
    ensures GoodReferences(xs) ==> NormalizeReferences(s, xs) == Success(Sort(ByReference(s.le), xs))
  {
    TraverseSpec(CheckReference, xs);
    assert forall i :: 0 <= i < |xs| ==> (CheckReference(xs[i]).Success? <==> GoodReference(xs[i]));
    if GoodReferences(xs) { assert Traverse(CheckReference, xs).value == xs; }
  }

  lemma ObjectsNormalize(s: Setting, xs: seq<BackedUp>)
    ensures NormalizeObjects(s, xs).Success? <==> GoodObjects(xs)
    ensures GoodObjects(xs) ==> NormalizeObjects(s, xs) == Success(Sort(ByObject(s.le), xs))
  {
    TraverseSpec(CheckObject, xs);
    assert forall i :: 0 <= i < |xs| ==> (CheckObject(xs[i]).Success? <==> GoodObject(xs[i]));
    if GoodObjects(xs) { assert Traverse(CheckObject, xs).value == xs; }
  }

  // ---- Coverage -------------------------------------------------------------------------------

  /** No provider and key is listed twice. */
  predicate KeysOnce(objects: seq<BackedUp>) {
    forall o, q :: o in objects && q in objects && o.provider == q.provider && o.key == q.key ==> o == q
  }

  /** Each reference has an object of its provider, key, size and digest. */
  predicate EachHasObject(references: seq<Reference>, objects: seq<BackedUp>) {
    forall r :: r in references ==> HasObject(objects, r)
  }

  predicate HasObject(objects: seq<BackedUp>, r: Reference) {
    exists o :: o in objects && o.provider == r.provider && o.key == r.key && o.size == r.size && o.hash == r.hash
  }

  lemma CoversExactly(objects: seq<BackedUp>, r: Reference)
    requires KeysOnce(objects)
    ensures Covers(objects, r) <==> HasObject(objects, r)
  {
  }

  lemma CoveredExactly(s: Setting, references: seq<Reference>, objects: seq<BackedUp>)
    requires TotalOrder(s.le) && KeysOnce(objects)
    ensures AllCovered(Sort(ByReference(s.le), references), Sort(ByObject(s.le), objects)) <==>
      EachHasObject(references, objects)
  {
    OrdersTotal(s.le);
    SortMembers(ByReference(s.le), references);
    SortMembers(ByObject(s.le), objects);
    var rs, os := Sort(ByReference(s.le), references), Sort(ByObject(s.le), objects);
    forall r ensures Covers(os, r) <==> HasObject(objects, r) {
      CoversExactly(os, r);
    }
    if AllCovered(rs, os) {
      forall r | r in references ensures HasObject(objects, r) {
        var i :| 0 <= i < |rs| && rs[i] == r;
        assert Covers(os, rs[i]);
      }
    }
    forall i | 0 <= i < |rs| ensures rs[i] in references { assert rs[i] in rs; }
  }

  // ---- Passing --------------------------------------------------------------------------------

  /** What the references and the copied objects have to be like. */
  ghost predicate CopiesWell(s: Setting, before: seq<Reference>, copy: seq<Reference> -> Result<seq<BackedUp>>) {
    && GoodReferences(before)
    && var copied := copy(Sort(ByReference(s.le), before));
    && copied.Success? && GoodObjects(copied.value) && EachHasObject(before, copied.value)
  }

  /**
   Where no copied object is listed twice, a cut passes if and only if: the write block has a digest for a receipt,
   nothing is in flight, pending or being created, the database cut is complete, every reference is good and
   has an object of its key, size and digest, and neither the watermark nor the references have moved.
   */
  lemma PassesExactly(s: Setting, a: Adapter)
    requires Lawful(s)
    requires a.before.Success? ==>
      var copied := a.copy(Sort(ByReference(s.le), a.before.value)); copied.Success? ==> KeysOnce(copied.value)
    ensures Consistent(s, a) <==>
      && a.writeBlock.Success? && IsHash(a.writeBlock.value) && a.drain == Success(Drain(0, 0, 0))
      && a.capture.Success? && GoodCut(a.capture.value)
      && a.before.Success? && CopiesWell(s, a.before.value, a.copy)
      && a.watermark == Success(a.capture.value.watermark)
      && a.after.Success? && GoodReferences(a.after.value)
      && s.digestReferences(Sort(ByReference(s.le), a.after.value)) ==
           s.digestReferences(Sort(ByReference(s.le), a.before.value))
  {
    if a.capture.Success? { CutChecked(a.capture.value); }
    if a.after.Success? { ReferencesNormalize(s, a.after.value); }
    if a.before.Success? { CopiedExactly(s, a.before.value, a.copy); }
  }

  /** The manifest of a passing cut lists what was observed, sorted, under its digests. */
  lemma ManifestShows(s: Setting, a: Adapter, target: Target, bucket: string, destination: string, cutId: string)
    requires Lawful(s) && Consistent(s, a)
    ensures var m := ManifestFor(s, a, target, bucket, destination, cutId);
      && m.digest == s.digestBody(m.body) && m.body.cutId == cutId && m.body.destination == destination
      && m.body.targetSha256 == target.sha256 && m.body.projectRef == target.projectRef && m.body.bucket == bucket
      && Success(m.body.receipt) == a.writeBlock && Success(m.body.cut) == a.capture
      && multiset(m.body.references) == multiset(a.before.value)
      && Sorted(ByReference(s.le), m.body.references) && Sorted(ByObject(s.le), m.body.objects)
      && a.copy(m.body.references).Success?
      && multiset(m.body.objects) == multiset(a.copy(m.body.references).value)
  {
    OrdersTotal(s.le);
    var references := NormalizeReferences(s, a.before.value).value;
    NormalizeIdempotent(CheckReference, ByReference(s.le), a.before.value, "BACKUP_REFERENCE_LIMIT");
    NormalizeIdempotent(CheckObject, ByObject(s.le), a.copy(references).value, "BACKUP_OBJECT_LIMIT");
  }

  lemma CutChecked(c: Cut)
    ensures CheckCut(c).Success? <==> GoodCut(c)
  {
  }

  lemma CopiedExactly(s: Setting, before: seq<Reference>, copy: seq<Reference> -> Result<seq<BackedUp>>)
    requires TotalOrder(s.le)
    requires var copied := copy(Sort(ByReference(s.le), before)); copied.Success? ==> KeysOnce(copied.value)
    ensures CopiesWell(s, before, copy) <==>
      && NormalizeReferences(s, before).Success?
      && var references := NormalizeReferences(s, before).value;
      && copy(references).Success? && NormalizeObjects(s, copy(references).value).Success?
      && AllCovered(references, NormalizeObjects(s, copy(references).value).value)
    ensures NormalizeReferences(s, before).Success? ==>
      NormalizeReferences(s, before).value == Sort(ByReference(s.le), before)
  {
    ReferencesNormalize(s, before);
    var copied := copy(Sort(ByReference(s.le), before));
    if copied.Success? {
      ObjectsNormalize(s, copied.value);
      CoveredExactly(s, before, copied.value);
    }
  }

  // ---- Reading --------------------------------------------------------------------------------

  /** A manifest is accepted only with the digests of what it lists, and nothing it lists is lost. */
  lemma ParsedManifestTells(s: Setting, m: Manifest)
    requires Lawful(s) && ParseManifest(s, m).Success?
    ensures var b := ParseManifest(s, m).value.body;
      && b.result == "PASS" && IsUuid(b.cutId) && GoodCut(b.cut) && s.destinationAdmitted(b.destination)
      && b.before == b.after == s.digestReferences(b.references) && b.objectDigest == s.digestObjects(b.objects)
      && m.digest == s.digestBody(b)
      && multiset(b.references) == multiset(m.body.references) && multiset(b.objects) == multiset(m.body.objects)
  {
    CutChecked(m.body.cut);
    ReferencesIdempotent(s, m.body.references);
    ObjectsIdempotent(s, m.body.objects);
  }

  /** And every reference it lists is good and covered by an object it lists. */
  lemma ParsedManifestCovers(s: Setting, m: Manifest, r: Reference)
    requires Lawful(s) && ParseManifest(s, m).Success? && r in m.body.references
    ensures GoodReference(r) && HasObject(m.body.objects, r)
  {
    var references, objects := NormalizeReferences(s, m.body.references), NormalizeObjects(s, m.body.objects);
    ReferencesNormalize(s, m.body.references);
    ReferencesIdempotent(s, m.body.references);
    ObjectsIdempotent(s, m.body.objects);
    CoveredBySome(references.value, objects.value, m.body.references, m.body.objects, r);
  }

  lemma CoveredBySome(
      references: seq<Reference>, objects: seq<BackedUp>, listed: seq<Reference>, stored: seq<BackedUp>, r: Reference)
    requires AllCovered(references, objects) && r in listed
    requires multiset(references) == multiset(listed) && multiset(objects) == multiset(stored)
    ensures HasObject(stored, r)
  {
    assert r in multiset(references);
    var i :| 0 <= i < |references| && references[i] == r;
    assert Covers(objects, references[i]);
    assert Lookup(objects, r.provider, r.key).value in multiset(stored);
  }
}

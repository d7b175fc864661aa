/**
 The whole database cut: parts, index, and the way back
 (`captureDatabaseCut` and `restoreDatabaseDumpFromChunkIndex` in
 apps/api/maintenance/backup/direct-provider.ts).
 */
module DatabaseCut {
  import opened Outcomes
  import opened Octets
  import opened Text
  import opened Traversal
  import opened Envelope
  import opened DatabaseBackup
  import opened DatabaseCapture
  import opened IndexSize

  function IndexLocator(prefix: string): string { prefix + INDEX_NAME }

  function IndexFor(v: Vault, cut: Cut, indexLocator: string, dump: Bytes, parts: seq<Part>): Index {
    Index(INDEX_VERSION, cut.cutId, indexLocator, cut.chunkBytes, |parts|, |dump|, v.sha256(dump), parts)
  }

  /** The state a capture leaves: all parts and the index that lists them. */
  predicate Captured(
      v: Vault, cut: Cut, indexLocator: string, objects: Objects, dump: Bytes, parts: seq<Part>, chunks: seq<Bytes>) {
    && 1 <= |dump| <= MAX_DUMP_BYTES && 1 <= |parts| <= MAX_PARTS && 1 <= cut.chunkBytes <= CHUNK_BYTES
    && IsUuid(cut.cutId) && SafeLocator(indexLocator)
    && PartsStored(v, cut, objects, parts, chunks) && Concat(chunks) == dump
    && var bytes := v.encode(IndexFor(v, cut, indexLocator, dump, parts));
    && |bytes| <= MAX_INDEX_BYTES && indexLocator in objects
    && v.open(objects[indexLocator]) == Success(bytes) && |objects[indexLocator]| <= EnvelopeCap(|bytes|)
  }

  /** The name of the index is free and usable. */
  ghost predicate IndexClear(cut: Cut, indexLocator: string, objects: Objects) {
    && Admissible(indexLocator, MAX_INDEX_BYTES) && indexLocator !in objects
    && forall k :: 0 <= k < MAX_PARTS ==> cut.locator(k) != indexLocator
  }

  lemma IndexGoesThrough(
      v: Vault, cut: Cut, indexLocator: string, before: Objects, after: Objects, used0: set<Bytes>, used1: set<Bytes>,
      count: nat, bytes: Bytes)
    requires Usable(v) && Clear(cut, before, used0) && OnlyParts(cut, before, after, used0, used1, count)
    requires count <= MAX_PARTS
    requires IndexClear(cut, indexLocator, before) && 1 <= |bytes| <= MAX_INDEX_BYTES
    ensures indexLocator !in after && cut.nonces(count) !in used1
    ensures Sealable(v, cut.cutId, indexLocator, bytes, cut.nonces(count))
  {
    assert SealsProperly(v, cut.cutId, indexLocator, bytes, cut.nonces(count));
    CapMonotone(|bytes|, MAX_INDEX_BYTES);
  }

  ghost predicate AllClear(cut: Cut, indexLocator: string, objects: Objects, used: set<Bytes>) {
    Clear(cut, objects, used) && IndexClear(cut, indexLocator, objects)
  }

  /** Whatever was stored, its index is within the limit, so that exit of the capture is never taken. */
  lemma StoredIndexFits(
      v: Vault, cut: Cut, indexLocator: string, dump: Bytes, parts: seq<Part>, objects: Objects, chunks: seq<Bytes>)
    requires Usable(v) && |dump| <= MAX_DUMP_BYTES && |parts| <= MAX_PARTS && cut.chunkBytes <= CHUNK_BYTES
    requires IsUuid(cut.cutId) && SafeLocator(indexLocator) && PartsStored(v, cut, objects, parts, chunks)
    ensures |v.encode(IndexFor(v, cut, indexLocator, dump, parts))| <= MAX_INDEX_BYTES
  {
    forall i | 0 <= i < |parts| ensures Modest(parts[i]) {
      assert PartStored(v, cut, objects, i, parts[i], chunks[i]);
      CapMonotone(|chunks[i]|, CHUNK_BYTES);
    }
    IndexFits(IndexFor(v, cut, indexLocator, dump, parts));
  }

  lemma IndexReady(
      v: Vault, cut: Cut, indexLocator: string, dump: Bytes, parts: seq<Part>, chunks: seq<Bytes>, before: Objects,
      after: Objects, used0: set<Bytes>, used1: set<Bytes>)
    requires Usable(v) && |dump| <= MAX_DUMP_BYTES && |parts| <= MAX_PARTS && cut.chunkBytes <= CHUNK_BYTES
    requires IsUuid(cut.cutId) && PartsStored(v, cut, after, parts, chunks)
    requires Clear(cut, before, used0) ==> OnlyParts(cut, before, after, used0, used1, |parts|)
    ensures AllClear(cut, indexLocator, before, used0) ==>
      var bytes := v.encode(IndexFor(v, cut, indexLocator, dump, parts));
      && |bytes| <= MAX_INDEX_BYTES && cut.nonces(|parts|) !in used1 && indexLocator !in after
      && Sealable(v, cut.cutId, indexLocator, bytes, cut.nonces(|parts|))
  {
    if AllClear(cut, indexLocator, before, used0) {
      StoredIndexFits(v, cut, indexLocator, dump, parts, after, chunks);
      var bytes := v.encode(IndexFor(v, cut, indexLocator, dump, parts));
      IndexGoesThrough(v, cut, indexLocator, before, after, used0, used1, |parts|, bytes);
    }
  }

  lemma UnsafeIsNotSealable(v: Vault, cutId: string, locator: string, plaintext: Bytes, nonce: Bytes)
    requires !SafeLocator(locator)
    ensures !Sealable(v, cutId, locator, plaintext, nonce)
  {
  }

  method PutIndex(
      v: Vault, cut: Cut, indexLocator: string, dump: Bytes, parts: seq<Part>, store: BackupStore,
      ghost chunks: seq<Bytes>)
    returns (r: Result<(string, string)>)
    requires Usable(v) && 1 <= |dump| <= MAX_DUMP_BYTES && 1 <= |parts| <= MAX_PARTS
    requires 1 <= cut.chunkBytes <= CHUNK_BYTES
    requires IsUuid(cut.cutId) && PartsStored(v, cut, store.objects, parts, chunks) && Concat(chunks) == dump
    modifies store
    ensures Extends(old(store.objects), store.objects)
    ensures r.Success? ==>
      r.value == (indexLocator, v.sha256(dump)) && Captured(v, cut, indexLocator, store.objects, dump, parts, chunks)
    ensures
      var bytes := v.encode(IndexFor(v, cut, indexLocator, dump, parts));
      r.Success? <==>
        && cut.nonces(|parts|) !in old(store.usedNonces) && indexLocator !in old(store.objects)
        && Sealable(v, cut.cutId, indexLocator, bytes, cut.nonces(|parts|))
  {
    var bytes := v.encode(IndexFor(v, cut, indexLocator, dump, parts));
    if SafeLocator(indexLocator) {
      StoredIndexFits(v, cut, indexLocator, dump, parts, store.objects, chunks);
    } else {
      UnsafeIsNotSealable(v, cut.cutId, indexLocator, bytes, cut.nonces(|parts|));
    }
    if |bytes| > MAX_INDEX_BYTES { return Failure("BACKUP_DATABASE_INDEX_TOO_LARGE"); }
    ghost var before := store.objects;
    var put := store.PutEncrypted(v, cut.cutId, indexLocator, bytes, cut.nonces(|parts|));
    if put.Failure? { return Failure(put.code); }
    PartsKept(v, cut, before, store.objects, parts, chunks);
    r := Success((indexLocator, v.sha256(dump)));
  }

  /**
   A capture that returns has stored everything a restore needs; where nothing stands in its way it
   returns exactly when the dump is neither empty nor too large and is read in at most 512 parts. With full
   reads of the standard chunk the last condition always holds.
   */
  method CaptureDatabaseCut(v: Vault, cut: Cut, indexLocator: string, dump: Bytes, store: BackupStore)
    returns (r: Result<(string, string)>, ghost parts: seq<Part>, ghost chunks: seq<Bytes>)
    requires Usable(v)
    modifies store
    ensures Extends(old(store.objects), store.objects)
    ensures r.Success? ==>
      r.value == (indexLocator, v.sha256(dump)) && Captured(v, cut, indexLocator, store.objects, dump, parts, chunks)
    ensures AllClear(cut, indexLocator, old(store.objects), old(store.usedNonces)) ==>
      (r.Success? <==>
        1 <= |dump| <= MAX_DUMP_BYTES && Count(cut, 0, |dump|) <= MAX_PARTS)
    ensures AllClear(cut, indexLocator, old(store.objects), old(store.usedNonces)) ==>
      (FullReads(cut) && cut.chunkBytes == CHUNK_BYTES ==> (r.Success? <==> 1 <= |dump| <= MAX_DUMP_BYTES))
  {
    if FullReads(cut) && cut.chunkBytes == CHUNK_BYTES && |dump| <= MAX_DUMP_BYTES { FullReadsFit(cut, |dump|); }
    parts, chunks := [], [];
    if cut.chunkBytes < 1 || cut.chunkBytes > CHUNK_BYTES {
      return Failure("BACKUP_DATABASE_CHUNK_SIZE_INVALID"), parts, chunks;
    }
    if |dump| < 1 { return Failure("BACKUP_PG_DUMP_EMPTY"), parts, chunks; }
    if |dump| > MAX_DUMP_BYTES { return Failure("BACKUP_PG_DUMP_SIZE_LIMIT"), parts, chunks; }
    var captured;
    captured, chunks := CaptureParts(v, cut, dump, store);
    if captured.Failure? { return Failure(captured.code), parts, chunks; }
    parts := captured.value;
    IndexReady(
      v, cut, indexLocator, dump, parts, chunks, old(store.objects), store.objects, old(store.usedNonces),
      store.usedNonces);
    r := PutIndex(v, cut, indexLocator, dump, captured.value, store, chunks);
  }

  // ---- Restoring what was captured ------------------------------------------------------------

  lemma PartRestores(v: Vault, cut: Cut, prefix: string, objects: Objects, parts: seq<Part>, chunks: seq<Bytes>, i: nat)
    requires cut.chunkBytes <= CHUNK_BYTES && cut.locator(i) == PartLocator(prefix, i)
    requires PartsStored(v, cut, objects, parts, chunks) && i < |parts|
    ensures RestorePart(v, prefix, objects, parts)(i) == Success(chunks[i])
    ensures (forall b :: IsHash(v.sha256(b))) ==> PartAdmitted(parts[i], i, cut.chunkBytes)
  {
    assert PartStored(v, cut, objects, i, parts[i], chunks[i]);
    CapMonotone(|chunks[i]|, CHUNK_BYTES);
  }

  lemma {:induction false} TraverseIs<B>(f: nat -> Result<B>, ys: seq<B>)
    requires forall i :: 0 <= i < |ys| ==> f(i) == Success(ys[i])
    ensures Traverse(f, Indices(|ys|)) == Success(ys)
  {
    TraverseSpec(f, Indices(|ys|));
    var r := Traverse(f, Indices(|ys|));
    assert r.Success?;
    assert r.value == ys;
  }

  lemma IndexOpens(
      v: Vault, cut: Cut, prefix: string, objects: Objects, later: Objects, dump: Bytes, parts: seq<Part>,
      chunks: seq<Bytes>)
    requires Usable(v) && Extends(objects, later) && forall k :: cut.locator(k) == PartLocator(prefix, k)
    requires Captured(v, cut, IndexLocator(prefix), objects, dump, parts, chunks)
    ensures IndexLocator(prefix) in later
    ensures OpenIndex(v, later[IndexLocator(prefix)], IndexLocator(prefix), cut.cutId, v.sha256(dump)) ==
      Success(IndexFor(v, cut, IndexLocator(prefix), dump, parts))
  {
    var index := IndexFor(v, cut, IndexLocator(prefix), dump, parts);
    CapMonotone(|v.encode(index)|, MAX_INDEX_BYTES);
    forall i | 0 <= i < |parts| ensures PartAdmitted(parts[i], i, cut.chunkBytes) {
      PartRestores(v, cut, prefix, objects, parts, chunks, i);
    }
    assert ParseIndex(index) == Success(index);
  }

  /** The stored index serves the restore of its own place, cut and dump, and no other. */
  lemma IndexServesExactly(
      v: Vault, cut: Cut, prefix: string, objects: Objects, dump: Bytes, parts: seq<Part>, chunks: seq<Bytes>,
      locator: string, cutId: string, dumpHash: string)
    requires Usable(v) && forall k :: cut.locator(k) == PartLocator(prefix, k)
    requires Captured(v, cut, IndexLocator(prefix), objects, dump, parts, chunks)
    ensures OpenIndex(v, objects[IndexLocator(prefix)], locator, cutId, dumpHash).Success? <==>
      locator == IndexLocator(prefix) && cutId == cut.cutId && dumpHash == v.sha256(dump)
  {
    IndexOpens(v, cut, prefix, objects, objects, dump, parts, chunks);
  }

  /** From the moment a capture returns, and however the store grows, a restore delivers exactly the dump. */
  lemma CaptureRestores(
      v: Vault, cut: Cut, prefix: string, objects: Objects, later: Objects, dump: Bytes, parts: seq<Part>,
      chunks: seq<Bytes>)
    requires Usable(v) && Extends(objects, later) && forall k :: cut.locator(k) == PartLocator(prefix, k)
    requires Captured(v, cut, IndexLocator(prefix), objects, dump, parts, chunks)
    ensures IndexLocator(prefix) in later
    ensures Restored(v, later[IndexLocator(prefix)], IndexLocator(prefix), cut.cutId, v.sha256(dump), later) ==
      Success(chunks)
    ensures Concat(chunks) == dump
  {
    IndexOpens(v, cut, prefix, objects, later, dump, parts, chunks);
    assert PrefixOf(IndexLocator(prefix)) == prefix;
    PartsKept(v, cut, objects, later, parts, chunks);
    PartsRestore(v, cut, prefix, later, dump, parts, chunks);
  }

  lemma PartsRestore(
      v: Vault, cut: Cut, prefix: string, objects: Objects, dump: Bytes, parts: seq<Part>, chunks: seq<Bytes>)
    requires cut.chunkBytes <= CHUNK_BYTES && forall k :: cut.locator(k) == PartLocator(prefix, k)
    requires PartsStored(v, cut, objects, parts, chunks) && Concat(chunks) == dump
    ensures RestoredParts(v, IndexFor(v, cut, IndexLocator(prefix), dump, parts), prefix, objects) == Success(chunks)
  {
    var f := RestorePart(v, prefix, objects, parts);
    forall i | 0 <= i < |chunks| ensures f(i) == Success(chunks[i]) {
      PartRestores(v, cut, prefix, objects, parts, chunks, i);
    }
    TraverseIs(f, chunks);
  }

  // ---- Restoring from a store that was tampered with ------------------------------------------

  /** The two contents do not share a digest without being equal. */
  predicate Apart(v: Vault, a: Bytes, b: Bytes) { v.sha256(a) == v.sha256(b) ==> a == b }

  /** Every part is there and is what the capture stored. */
  predicate PartsIntact(parts: seq<Part>, objects: Objects, now: Objects) {
    forall i :: 0 <= i < |parts| ==>
      parts[i].locator in now && parts[i].locator in objects && now[parts[i].locator] == objects[parts[i].locator]
  }

  lemma TamperedPartFails(
      v: Vault, cut: Cut, prefix: string, objects: Objects, now: Objects, parts: seq<Part>, chunks: seq<Bytes>, i: nat)
    requires i < |parts| && PartsStored(v, cut, objects, parts, chunks)
    requires parts[i].locator in now ==> Apart(v, now[parts[i].locator], objects[parts[i].locator])
    requires RestorePart(v, prefix, now, parts)(i).Success?
    ensures parts[i].locator in now && now[parts[i].locator] == objects[parts[i].locator]
  {
    assert PartStored(v, cut, objects, i, parts[i], chunks[i]);
  }

  /**
   Restoring from whatever the store has become: with the index of the capture it succeeds if and only if every part
   is still exactly what was stored, and then it delivers the very chunks of the dump. Digests are only
   assumed to tell the parts that are there from those that were stored.
   */
  lemma RestoresExactlyIntact(
      v: Vault, cut: Cut, prefix: string, objects: Objects, now: Objects, dump: Bytes, parts: seq<Part>,
      chunks: seq<Bytes>)
    requires Usable(v) && forall k :: cut.locator(k) == PartLocator(prefix, k)
    requires Captured(v, cut, IndexLocator(prefix), objects, dump, parts, chunks)
    requires forall i :: 0 <= i < |parts| && parts[i].locator in now && parts[i].locator in objects ==>
      Apart(v, now[parts[i].locator], objects[parts[i].locator])
    ensures
      var r := Restored(v, objects[IndexLocator(prefix)], IndexLocator(prefix), cut.cutId, v.sha256(dump), now);
      && (r.Success? <==> PartsIntact(parts, objects, now))
      && (r.Success? ==> r.value == chunks && Concat(r.value) == dump)
  {
    IndexOpens(v, cut, prefix, objects, objects, dump, parts, chunks);
    assert PrefixOf(IndexLocator(prefix)) == prefix;
    PartsRestoreExactly(v, cut, prefix, objects, now, dump, parts, chunks);
  }

  lemma PartsRestoreExactly(
      v: Vault, cut: Cut, prefix: string, objects: Objects, now: Objects, dump: Bytes, parts: seq<Part>,
      chunks: seq<Bytes>)
    requires cut.chunkBytes <= CHUNK_BYTES && forall k :: cut.locator(k) == PartLocator(prefix, k)
    requires PartsStored(v, cut, objects, parts, chunks) && Concat(chunks) == dump
    requires forall i :: 0 <= i < |parts| && parts[i].locator in now && parts[i].locator in objects ==>
      Apart(v, now[parts[i].locator], objects[parts[i].locator])
    ensures
      var r := RestoredParts(v, IndexFor(v, cut, IndexLocator(prefix), dump, parts), prefix, now);
      (r.Success? <==> PartsIntact(parts, objects, now)) && (r.Success? ==> r.value == chunks)
  {
    if PartsIntact(parts, objects, now) {
      IntactParts(v, cut, objects, now, parts, chunks);
      PartsRestore(v, cut, prefix, now, dump, parts, chunks);
    } else if Traverse(RestorePart(v, prefix, now, parts), Indices(|parts|)).Success? {
      AllPartsIntact(v, cut, prefix, objects, now, parts, chunks);
    }
  }

  lemma IntactParts(v: Vault, cut: Cut, objects: Objects, now: Objects, parts: seq<Part>, chunks: seq<Bytes>)
    requires PartsStored(v, cut, objects, parts, chunks) && PartsIntact(parts, objects, now)
    ensures PartsStored(v, cut, now, parts, chunks)
  {
    forall i | 0 <= i < |parts| ensures PartStored(v, cut, now, i, parts[i], chunks[i]) {
      assert PartStored(v, cut, objects, i, parts[i], chunks[i]);
    }
  }

  lemma AllPartsIntact(
      v: Vault, cut: Cut, prefix: string, objects: Objects, now: Objects, parts: seq<Part>, chunks: seq<Bytes>)
    requires PartsStored(v, cut, objects, parts, chunks)
    requires forall i :: 0 <= i < |parts| && parts[i].locator in now && parts[i].locator in objects ==>
      Apart(v, now[parts[i].locator], objects[parts[i].locator])
    requires Traverse(RestorePart(v, prefix, now, parts), Indices(|parts|)).Success?
    ensures PartsIntact(parts, objects, now)
  {
    var f := RestorePart(v, prefix, now, parts);
    TraverseSpec(f, Indices(|parts|));
    forall i | 0 <= i < |parts|
      ensures parts[i].locator in now && parts[i].locator in objects
      ensures now[parts[i].locator] == objects[parts[i].locator]
    {
      assert PartStored(v, cut, objects, i, parts[i], chunks[i]);
      assert Indices(|parts|)[i] == i && f(Indices(|parts|)[i]).Success?;
      TamperedPartFails(v, cut, prefix, objects, now, parts, chunks, i);
    }
  }

  /**
   From any store and any index whatever: a restore that returns has delivered content of the requested digest, in
   parts of the places, sizes and digests its index lists, none larger than a chunk.
   */
  lemma RestoredTells(
      v: Vault, envelope: Bytes, indexLocator: string, cutId: string, dumpHash: string, objects: Objects, i: nat)
    requires Restored(v, envelope, indexLocator, cutId, dumpHash, objects).Success?
    ensures OpenIndex(v, envelope, indexLocator, cutId, dumpHash).Success?
    ensures
      var chunks := Restored(v, envelope, indexLocator, cutId, dumpHash, objects).value;
      var index := OpenIndex(v, envelope, indexLocator, cutId, dumpHash).value;
      && v.sha256(Concat(chunks)) == dumpHash && 1 <= |Concat(chunks)| <= 8 * 1024 * 1024 * 1024
      && |chunks| == |index.parts| && 1 <= |chunks| <= 512
      && index.version == "backup-database-chunk-index/v1" && index.cutId == cutId
      && (i < |chunks| ==>
            && index.parts[i].index == i && index.parts[i].locator == PartLocator(PrefixOf(indexLocator), i)
            && 1 <= |chunks[i]| <= 16 * 1024 * 1024 && |chunks[i]| == index.parts[i].plaintextBytes
            && v.sha256(chunks[i]) == index.parts[i].plaintextSha256
            && index.parts[i].locator in objects && v.open(objects[index.parts[i].locator]) == Success(chunks[i])
            && v.sha256(objects[index.parts[i].locator]) == index.parts[i].envelopeSha256
            && |objects[index.parts[i].locator]| == index.parts[i].envelopeBytes)
  {
    var index := OpenIndex(v, envelope, indexLocator, cutId, dumpHash).value;
    var f := RestorePart(v, PrefixOf(indexLocator), objects, index.parts);
    TraverseSpec(f, Indices(|index.parts|));
    var chunks := Traverse(f, Indices(|index.parts|)).value;
    if i < |chunks| {
      assert Indices(|index.parts|)[i] == i && f(Indices(|index.parts|)[i]) == Success(chunks[i]);
      assert PartAdmitted(index.parts[i], i, index.chunkBytes);
    }
  }
}

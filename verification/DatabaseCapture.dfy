/**
 Capturing a database dump in encrypted parts, and that it can always be restored
 (`captureDatabaseCut` in apps/api/maintenance/backup/direct-provider.ts).
 */
module DatabaseCapture {
  import opened Outcomes
  import opened Sums
  import opened Octets
  import opened Text
  import opened Json
  import opened Envelope
  import opened DatabaseBackup

  /** What varies from one capture to the next. */
  datatype Cut = Cut(cutId: string, locator: nat -> string, chunkBytes: nat, supply: nat -> nat, nonces: nat -> Bytes)

  predicate PartStored(v: Vault, cut: Cut, objects: Objects, i: nat, part: Part, chunk: Bytes) {
    && part.index == i && part.locator == cut.locator(i) && SafeLocator(part.locator)
    && EscapedBytes(part.locator) <= 195
    && part.plaintextBytes == |chunk| && 1 <= |chunk| <= cut.chunkBytes
    && part.plaintextSha256 == v.sha256(chunk)
    && Held(v, objects, part.locator, chunk, Receipt(part.envelopeBytes, part.envelopeSha256))
  }

  predicate PartsStored(v: Vault, cut: Cut, objects: Objects, parts: seq<Part>, chunks: seq<Bytes>) {
    |parts| == |chunks| && forall i :: 0 <= i < |parts| ==> PartStored(v, cut, objects, i, parts[i], chunks[i])
  }

  lemma PartsKept(v: Vault, cut: Cut, a: Objects, b: Objects, parts: seq<Part>, chunks: seq<Bytes>)
    requires Extends(a, b) && PartsStored(v, cut, a, parts, chunks)
    ensures PartsStored(v, cut, b, parts, chunks)
  {
    forall i | 0 <= i < |parts| ensures PartStored(v, cut, b, i, parts[i], chunks[i]) {
      assert PartStored(v, cut, a, i, parts[i], chunks[i]);
    }
  }

  lemma PartsOneMore(
      v: Vault, cut: Cut, objects: Objects, parts: seq<Part>, chunks: seq<Bytes>, part: Part, chunk: Bytes)
    requires PartsStored(v, cut, objects, parts, chunks) && PartStored(v, cut, objects, |parts|, part, chunk)
    ensures PartsStored(v, cut, objects, parts + [part], chunks + [chunk])
  {
    var ps, cs := parts + [part], chunks + [chunk];
    forall i | 0 <= i < |ps| ensures PartStored(v, cut, objects, i, ps[i], cs[i]) {
      if i < |parts| { assert ps[i] == parts[i] && cs[i] == chunks[i]; }
    }
  }

  // ---- When a capture goes through ------------------------------------------------------------

  /** Number of parts the remaining bytes will be read in. */
  function Count(cut: Cut, k: nat, remaining: nat): nat
    requires cut.chunkBytes >= 1 && forall j :: cut.supply(j) >= 1
    decreases remaining
  {
    if remaining == 0 then 0 else 1 + Count(cut, k + 1, remaining - ReadBytes(cut.supply, cut.chunkBytes, k, remaining))
  }

  /** No read comes back short of a full chunk before the end of the dump. */
  ghost predicate FullReads(cut: Cut) { forall k :: cut.supply(k) >= cut.chunkBytes }

  /** `n` chunks of `c` bytes are needed for this many bytes, and no fewer do. */
  predicate Needs(n: nat, c: nat, remaining: nat) { n * c < remaining + c && remaining <= n * c }

  lemma NeedsIsQuotient(n: nat, c: nat, remaining: nat)
    requires c >= 1 && Needs(n, c, remaining)
    ensures n == (remaining + c - 1) / c
  {
    var a := remaining + c - 1;
    var q := a / c;
    assert q * c <= a < q * c + c by { assert a == c * q + a % c; }
    MulDistributes(q, 1, c);
    MulDistributes(n, 1, c);
    CancelLt(n, q + 1, c);
    CancelLt(q, n + 1, c);
  }

  lemma {:induction false} FullReadsNeed(cut: Cut, k: nat, remaining: nat)
    requires cut.chunkBytes >= 1 && FullReads(cut)
    ensures Needs(Count(cut, k, remaining), cut.chunkBytes, remaining)
    decreases remaining
  {
    var c := cut.chunkBytes;
    if remaining > 0 {
      var rest := if remaining > c then remaining - c else 0;
      FullReadsNeed(cut, k + 1, rest);
      MulDistributes(Count(cut, k + 1, rest), 1, c);
    }
  }

  /** With full reads the number of parts is the remaining bytes divided by the chunk, rounded up. */
  lemma FullReadsCount(cut: Cut, k: nat, remaining: nat)
    requires cut.chunkBytes >= 1 && FullReads(cut)
    ensures Count(cut, k, remaining) == (remaining + cut.chunkBytes - 1) / cut.chunkBytes
  {
    FullReadsNeed(cut, k, remaining);
    NeedsIsQuotient(Count(cut, k, remaining), cut.chunkBytes, remaining);
  }

  /** So full reads of the standard chunk take any dump up to the size limit in at most 512 parts. */
  lemma FullReadsFit(cut: Cut, size: nat)
    requires cut.chunkBytes == CHUNK_BYTES && FullReads(cut) && size <= MAX_DUMP_BYTES
    ensures Count(cut, 0, size) <= MAX_PARTS
  {
    FullReadsCount(cut, 0, size);
  }

  /** A place an object of the given size can be put and read back from. */
  predicate Admissible(locator: string, size: nat) {
    && SafeLocator(locator) && EscapedBytes(locator) <= 195
    && MaximumEnvelope(locator).Some? && EnvelopeCap(size) <= MaximumEnvelope(locator).value
  }

  ghost predicate InputsClear(cut: Cut, used: set<Bytes>) {
    && IsUuid(cut.cutId) && 1 <= cut.chunkBytes <= CHUNK_BYTES
    && (forall k :: cut.supply(k) >= 1)
    && (forall k :: |cut.nonces(k)| == 12 && cut.nonces(k) !in used)
    && (forall j, k :: 0 <= j < k ==> cut.nonces(j) != cut.nonces(k))
  }

  ghost predicate NamesClear(cut: Cut, objects: Objects) {
    && (forall j, k :: 0 <= j < k ==> cut.locator(j) != cut.locator(k))
    && (forall k :: 0 <= k < MAX_PARTS ==> Admissible(cut.locator(k), CHUNK_BYTES) && cut.locator(k) !in objects)
  }

  /** No read is truncated, nonces are new, and the part names are free and usable. */
  ghost predicate Clear(cut: Cut, objects: Objects, used: set<Bytes>) {
    InputsClear(cut, used) && NamesClear(cut, objects)
  }

  /** The store after some parts: nothing but those parts and their nonces is new. */
  ghost predicate OnlyParts(
      cut: Cut, before: Objects, after: Objects, usedBefore: set<Bytes>, usedAfter: set<Bytes>, count: nat) {
    && (forall k :: k in after && k !in before ==> IsPart(cut, count, k))
    && (forall n :: n in usedAfter && n !in usedBefore ==> IsNonce(cut, count, n))
  }

  predicate IsPart(cut: Cut, count: nat, locator: string) { exists j :: 0 <= j < count && locator == cut.locator(j) }

  predicate IsNonce(cut: Cut, count: nat, nonce: Bytes) { exists j :: 0 <= j < count && nonce == cut.nonces(j) }

  lemma PartGoesThrough(v: Vault, cut: Cut, k: nat, chunk: Bytes, nonce: Bytes)
    requires Usable(v) && IsUuid(cut.cutId) && |nonce| == 12 && 1 <= |chunk| <= CHUNK_BYTES
    requires Admissible(cut.locator(k), CHUNK_BYTES)
    ensures Sealable(v, cut.cutId, cut.locator(k), chunk, nonce)
  {
    assert SealsProperly(v, cut.cutId, cut.locator(k), chunk, nonce);
    CapMonotone(|chunk|, CHUNK_BYTES);
  }

  lemma NextIsFree(cut: Cut, before: Objects, after: Objects, usedBefore: set<Bytes>, usedAfter: set<Bytes>, count: nat)
    requires Clear(cut, before, usedBefore) && OnlyParts(cut, before, after, usedBefore, usedAfter, count)
    requires count < MAX_PARTS
    ensures cut.locator(count) !in after && cut.nonces(count) !in usedAfter
  {
  }

  // ---- Capture --------------------------------------------------------------------------------

  lemma ChunkAppended(dump: Bytes, total: nat, size: nat, chunks: seq<Bytes>)
    requires total + size <= |dump| && Concat(chunks) == dump[..total]
    ensures Concat(chunks + [dump[total..total + size]]) == dump[..total + size]
  {
    ConcatOneMore(chunks, dump[total..total + size]);
    assert dump[..total] + dump[total..total + size] == dump[..total + size];
  }

  method CapturePart(v: Vault, cut: Cut, index: nat, chunk: Bytes, store: BackupStore) returns (r: Result<Part>)
    requires Usable(v) && 1 <= |chunk| <= cut.chunkBytes <= CHUNK_BYTES
    modifies store
    ensures Extends(old(store.objects), store.objects)
    ensures store.usedNonces == old(store.usedNonces) + {cut.nonces(index)}
    ensures store.objects.Keys <= old(store.objects).Keys + {cut.locator(index)}
    ensures r.Success? <==>
      && cut.nonces(index) !in old(store.usedNonces) && cut.locator(index) !in old(store.objects)
      && Sealable(v, cut.cutId, cut.locator(index), chunk, cut.nonces(index))
    ensures r.Success? ==> PartStored(v, cut, store.objects, index, r.value, chunk) && IsUuid(cut.cutId)
  {
    var locator := cut.locator(index);
    var envelope := store.PutEncrypted(v, cut.cutId, locator, chunk, cut.nonces(index));
    if envelope.Failure? { return Failure(envelope.code); }
    r := Success(
      Part(index, locator, |chunk|, v.sha256(chunk), envelope.value.envelopeBytes, envelope.value.envelopeSha256));
  }

  /** How far a capture that meets no obstacle has come. */
  ghost predicate OnCourse(
      cut: Cut, before: Objects, after: Objects, usedBefore: set<Bytes>, usedAfter: set<Bytes>, count: nat, dump: nat,
      total: nat)
    requires cut.chunkBytes >= 1 && (forall j :: cut.supply(j) >= 1) && total <= dump
  {
    && OnlyParts(cut, before, after, usedBefore, usedAfter, count)
    && Count(cut, 0, dump) == count + Count(cut, count, dump - total)
  }

  lemma CourseStep(
      cut: Cut, before: Objects, middle: Objects, after: Objects, used0: set<Bytes>, used1: set<Bytes>,
      used2: set<Bytes>,
      count: nat, dump: nat, total: nat, size: nat)
    requires cut.chunkBytes >= 1 && (forall j :: cut.supply(j) >= 1) && total < dump
    requires OnCourse(cut, before, middle, used0, used1, count, dump, total)
    requires size == ReadBytes(cut.supply, cut.chunkBytes, count, dump - total)
    requires used2 == used1 + {cut.nonces(count)} && after.Keys <= middle.Keys + {cut.locator(count)}
    ensures total + size <= dump && OnCourse(cut, before, after, used0, used2, count + 1, dump, total + size)
  {
    assert dump - total - size == dump - (total + size);
    forall k | k in after && k !in before ensures IsPart(cut, count + 1, k) {
      if k != cut.locator(count) {
        var j :| 0 <= j < count && k == cut.locator(j);
      }
    }
    forall n | n in used2 && n !in used0 ensures IsNonce(cut, count + 1, n) {
      if n != cut.nonces(count) {
        var j :| 0 <= j < count && n == cut.nonces(j);
      }
    }
  }

  /** What has been read is stored, in order. */
  ghost predicate Underway(
      v: Vault, cut: Cut, dump: Bytes, objects: Objects, parts: seq<Part>, chunks: seq<Bytes>, total: nat) {
    && total <= |dump| && |parts| <= MAX_PARTS && (parts == [] ==> total == 0) && (parts != [] ==> IsUuid(cut.cutId))
    && Concat(chunks) == dump[..total] && PartsStored(v, cut, objects, parts, chunks)
  }

  ghost predicate Unhindered(
      cut: Cut, before: Objects, after: Objects, usedBefore: set<Bytes>, usedAfter: set<Bytes>, count: nat, dump: nat,
      total: nat)
    requires total <= dump
  {
    Clear(cut, before, usedBefore) ==> OnCourse(cut, before, after, usedBefore, usedAfter, count, dump, total)
  }

  lemma UnderwayStep(
      v: Vault, cut: Cut, dump: Bytes, before: Objects, after: Objects, parts: seq<Part>, chunks: seq<Bytes>,
      total: nat,
      part: Part, chunk: Bytes, more: seq<Part>, delivered: seq<Bytes>, read: nat)
    requires Underway(v, cut, dump, before, parts, chunks, total) && Extends(before, after)
    requires total <= read <= |dump| && chunk == dump[total..read] && |parts| < MAX_PARTS && IsUuid(cut.cutId)
    requires PartStored(v, cut, after, |parts|, part, chunk) && more == parts + [part] && delivered == chunks + [chunk]
    ensures Underway(v, cut, dump, after, more, delivered, read)
  {
    PartsKept(v, cut, before, after, parts, chunks);
    PartsOneMore(v, cut, after, parts, chunks, part, chunk);
    ChunkAppended(dump, total, read - total, chunks);
  }

  lemma NextGoesThrough(
      v: Vault, cut: Cut, before: Objects, after: Objects, usedBefore: set<Bytes>, usedAfter: set<Bytes>, count: nat,
      dump: nat,
      total: nat, chunk: Bytes)
    requires Usable(v) && total < dump && count < MAX_PARTS && 1 <= |chunk| <= CHUNK_BYTES
    requires Unhindered(cut, before, after, usedBefore, usedAfter, count, dump, total)
    ensures Clear(cut, before, usedBefore) ==>
      && cut.nonces(count) !in usedAfter && cut.locator(count) !in after
      && Sealable(v, cut.cutId, cut.locator(count), chunk, cut.nonces(count))
  {
    if Clear(cut, before, usedBefore) {
      NextIsFree(cut, before, after, usedBefore, usedAfter, count);
      PartGoesThrough(v, cut, count, chunk, cut.nonces(count));
    }
  }

  lemma UnhinderedStep(
      cut: Cut, before: Objects, middle: Objects, after: Objects, used0: set<Bytes>, used1: set<Bytes>,
      used2: set<Bytes>,
      count: nat, dump: nat, total: nat, size: nat, next: nat, read: nat)
    requires total < dump && Unhindered(cut, before, middle, used0, used1, count, dump, total)
    requires size == ReadBytes(cut.supply, cut.chunkBytes, count, dump - total)
    requires used2 == used1 + {cut.nonces(count)} && after.Keys <= middle.Keys + {cut.locator(count)}
    requires next == count + 1 && read == total + size <= dump
    ensures Unhindered(cut, before, after, used0, used2, next, dump, read)
  {
    if Clear(cut, before, used0) {
      CourseStep(cut, before, middle, after, used0, used1, used2, count, dump, total, size);
    }
  }

  /** The only obstacle left to a clear capture: the dump is read in too many parts. */
  ghost predicate TooMany(cut: Cut, objects: Objects, used: set<Bytes>, dump: nat) {
    Clear(cut, objects, used) ==> Count(cut, 0, dump) > MAX_PARTS
  }

  lemma ObstacleMeansTooMany(
      cut: Cut, before: Objects, after: Objects, usedBefore: set<Bytes>, usedAfter: set<Bytes>, count: nat, dump: nat,
      total: nat)
    requires total < dump && Unhindered(cut, before, after, usedBefore, usedAfter, count, dump, total)
    requires count >= MAX_PARTS || ReadBytes(cut.supply, cut.chunkBytes, count, dump - total) < 1
    ensures TooMany(cut, before, usedBefore, dump)
  {
  }

  /** Put what was read, and record it. */
  method CaptureChunk(
      v: Vault, cut: Cut, dump: Bytes, store: BackupStore, parts: seq<Part>, total: nat, bytesRead: nat,
      ghost chunks: seq<Bytes>,
      ghost objects: Objects, ghost used: set<Bytes>)
    returns (failed: Option<string>, more: seq<Part>, read: nat, ghost delivered: seq<Bytes>)
    requires Usable(v) && 1 <= cut.chunkBytes <= CHUNK_BYTES && total < |dump| && |parts| < MAX_PARTS
    requires 1 <= bytesRead == ReadBytes(cut.supply, cut.chunkBytes, |parts|, |dump| - total)
    requires Underway(v, cut, dump, store.objects, parts, chunks, total)
    requires Unhindered(cut, objects, store.objects, used, store.usedNonces, |parts|, |dump|, total)
    modifies store
    ensures Extends(old(store.objects), store.objects)
    ensures failed.None? ==>
      && total < read <= |dump| && |more| == |parts| + 1
      && Underway(v, cut, dump, store.objects, more, delivered, read)
      && Unhindered(cut, objects, store.objects, used, store.usedNonces, |more|, |dump|, read)
    ensures failed.Some? ==> TooMany(cut, objects, used, |dump|)
  {
    failed, more, read, delivered := None, parts, total + bytesRead, chunks;
    var chunk := dump[total..read];
    NextGoesThrough(v, cut, objects, store.objects, used, store.usedNonces, |parts|, |dump|, total, chunk);
    ghost var before, usedBefore := store.objects, store.usedNonces;
    var part := CapturePart(v, cut, |parts|, chunk, store);
    if part.Failure? { failed := Some(part.code); return; }
    more, delivered := parts + [part.value], chunks + [chunk];
    UnderwayStep(v, cut, dump, before, store.objects, parts, chunks, total, part.value, chunk, more, delivered, read);
    UnhinderedStep(
      cut, objects, before, store.objects, used, usedBefore, store.usedNonces, |parts|, |dump|, total, bytesRead,
      |more|, read);
  }

  /** One round of the chunk loop. */
  method CaptureNext(
      v: Vault, cut: Cut, dump: Bytes, store: BackupStore, parts: seq<Part>, total: nat, ghost chunks: seq<Bytes>,
      ghost objects: Objects, ghost used: set<Bytes>)
    returns (failed: Option<string>, more: seq<Part>, read: nat, ghost delivered: seq<Bytes>)
    requires Usable(v) && 1 <= cut.chunkBytes <= CHUNK_BYTES && total < |dump|
    requires Underway(v, cut, dump, store.objects, parts, chunks, total)
    requires Unhindered(cut, objects, store.objects, used, store.usedNonces, |parts|, |dump|, total)
    modifies store
    ensures Extends(old(store.objects), store.objects)
    ensures failed.None? ==>
      && total < read <= |dump| && |more| == |parts| + 1
      && Underway(v, cut, dump, store.objects, more, delivered, read)
      && Unhindered(cut, objects, store.objects, used, store.usedNonces, |more|, |dump|, read)
    ensures failed.Some? ==> TooMany(cut, objects, used, |dump|)
  {
    var bytesRead := ReadBytes(cut.supply, cut.chunkBytes, |parts|, |dump| - total);
    if |parts| >= MAX_PARTS || bytesRead < 1 {
      ObstacleMeansTooMany(cut, objects, store.objects, used, store.usedNonces, |parts|, |dump|, total);
      failed := Some(
        if |parts| >= MAX_PARTS then "BACKUP_DATABASE_PART_COUNT_LIMIT" else "BACKUP_PG_DUMP_READ_TRUNCATED");
      more, read, delivered := parts, total, chunks;
      return;
    }
    failed, more, read, delivered := CaptureChunk(v, cut, dump, store, parts, total, bytesRead, chunks, objects, used);
  }

  /** The chunk loop; it ends however short the reads are, because each of them takes something away. */
  method CaptureParts(v: Vault, cut: Cut, dump: Bytes, store: BackupStore)
    returns (r: Result<seq<Part>>, ghost chunks: seq<Bytes>)
    requires Usable(v) && 1 <= cut.chunkBytes <= CHUNK_BYTES
    modifies store
    ensures Extends(old(store.objects), store.objects)
    ensures r.Success? ==>
      && PartsStored(v, cut, store.objects, r.value, chunks) && Concat(chunks) == dump
      && |r.value| <= MAX_PARTS && (dump != [] ==> IsUuid(cut.cutId) && |r.value| >= 1)
    ensures Clear(cut, old(store.objects), old(store.usedNonces)) ==>
      && (r.Success? <==> Count(cut, 0, |dump|) <= MAX_PARTS)
      && (r.Success? ==>
            OnlyParts(cut, old(store.objects), store.objects, old(store.usedNonces), store.usedNonces, |r.value|))
  {
    var parts: seq<Part>, total := [], 0;
    chunks := [];
    while total < |dump|
      invariant Underway(v, cut, dump, store.objects, parts, chunks, total)
      invariant Extends(old(store.objects), store.objects)
      invariant Unhindered(
        cut, old(store.objects), store.objects, old(store.usedNonces), store.usedNonces, |parts|, |dump|, total)
      decreases |dump| - total
    {
      var failed;
      failed, parts, total, chunks := CaptureNext(
        v, cut, dump, store, parts, total, chunks, old(store.objects), old(store.usedNonces));
      if failed.Some? { return Failure(failed.value), chunks; }
    }
    assert dump[..total] == dump;
    r := Success(parts);
  }
}

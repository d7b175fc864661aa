/**
 Chunked encrypted database backup: capture, index and restore
 (apps/api/maintenance/backup/direct-provider.ts).

 The dump file is private and does not change while it is captured. `supply` says how many bytes each
 read of it would return at most, `nonces` what each draw of a nonce gives. The object store returns
 what was put, refuses to overwrite, and nobody deletes from it.
 */
module DatabaseBackup {
  import opened Outcomes
  import opened Octets
  import opened Text
  import opened Json
  import opened Traversal
  import opened Envelope

  const INDEX_VERSION := "backup-database-chunk-index/v1"
  const INDEX_NAME := "index.envelope.json"
  const MAX_INDEX_ENVELOPE_BYTES: nat := EnvelopeCap(MAX_INDEX_BYTES)
  const MAX_PART_ENVELOPE_BYTES: nat := EnvelopeCap(CHUNK_BYTES)

  datatype Part = Part(
    index: nat, locator: string, plaintextBytes: nat, plaintextSha256: string, envelopeBytes: nat,
    envelopeSha256: string)

  datatype Index = Index(
    version: string, cutId: string, indexLocator: string, chunkBytes: nat, partCount: nat, totalPlaintextBytes: nat,
    dumpHash: string, parts: seq<Part>)

  function PartMembers(part: Part): seq<Member> {
    [Number("envelopeBytes", part.envelopeBytes), Text("envelopeSha256", part.envelopeSha256),
     Number("index", part.index)] +
    [Text("locator", part.locator), Number("plaintextBytes", part.plaintextBytes),
     Text("plaintextSha256", part.plaintextSha256)]
  }

  function PartTexts(parts: seq<Part>): (texts: seq<string>)
    ensures |texts| == |parts|
  {
    seq(|parts|, i requires 0 <= i < |parts| => ObjectText(PartMembers(parts[i])))
  }

  function IndexMembers(x: Index): seq<Member> {
    [Number("chunkBytes", x.chunkBytes), Text("cutId", x.cutId), Text("dumpHashSha256", x.dumpHash),
     Text("indexLocator", x.indexLocator)] +
    [Number("partCount", x.partCount), Array("parts", PartTexts(x.parts)),
     Number("totalPlaintextBytes", x.totalPlaintextBytes), Text("version", x.version)]
  }

  /** Canonical JSON of an index. */
  function IndexText(x: Index): string { ObjectText(IndexMembers(x)) }

  /**
   What the backup needs of the encryption layer: sealing and opening under one fixed key, the digest,
   and the bytes of an index with their reader. `MakeVault` builds it from the platform and a JSON parser.
   */
  datatype Vault = Vault(
    seal: (string, string, Bytes, Bytes) -> Result<Bytes>, open: Bytes -> Result<Bytes>, sha256: Bytes -> string,
    encode: Index -> Bytes, decode: Bytes -> Option<Index>)

  function MakeVault(p: Platform, key: Bytes, keyId: string, parse: string -> Option<Index>): Vault {
    Vault(
      (cutId: string, locator: string, plaintext: Bytes, nonce: Bytes) =>
        Encrypt(p, plaintext, key, keyId, cutId, locator, nonce),
      (envelope: Bytes) => Decrypt(p, envelope, key, keyId), p.sha256,
      (x: Index) => p.utf8(IndexText(x)), (bytes: Bytes) => parse(p.toText(bytes)))
  }

  /** Which envelopes are made, how large they are, and exactly when they can be opened again. */
  predicate SealsProperly(v: Vault, cutId: string, locator: string, plaintext: Bytes, nonce: Bytes) {
    var envelope := v.seal(cutId, locator, plaintext, nonce);
    && (envelope.Success? <==> IsUuid(cutId) && SafeLocator(locator) && |nonce| == 12)
    && (envelope.Success? ==>
          && 1 <= |envelope.value| <= EnvelopeCap(|plaintext|)
          && v.open(envelope.value) ==
               if plaintext != [] && EscapedBytes(locator) <= 195 then Success(plaintext)
               else Failure("BACKUP_ENVELOPE_INVALID"))
  }

  ghost predicate Usable(v: Vault) {
    && (forall cutId, locator, plaintext, nonce :: |plaintext| <= MAX_SOURCE_OBJECT_BYTES ==>
          SealsProperly(v, cutId, locator, plaintext, nonce))
    && (forall b :: IsHash(v.sha256(b)))
    && (forall i :: v.decode(v.encode(i)) == Some(i) && 1 <= |v.encode(i)| == Utf8Length(IndexText(i)))
  }

  /** The envelope functions under a 32-byte key are such a vault. */
  lemma MakeVaultUsable(p: Platform, key: Bytes, keyId: string, parse: string -> Option<Index>)
    requires Lawful(p) && |key| == 32 && KeyIdAdmitted(keyId)
    requires forall i :: parse(IndexText(i)) == Some(i)
    ensures Usable(MakeVault(p, key, keyId, parse))
  {
    var v := MakeVault(p, key, keyId, parse);
    forall cutId, locator, plaintext: Bytes, nonce | |plaintext| <= MAX_SOURCE_OBJECT_BYTES
      ensures SealsProperly(v, cutId, locator, plaintext, nonce)
    {
      EnvelopeSealsProperly(p, key, keyId, parse, cutId, locator, plaintext, nonce);
    }
    forall i ensures v.decode(v.encode(i)) == Some(i) && 1 <= |v.encode(i)| == Utf8Length(IndexText(i)) {
      EncodesProperly(p, key, keyId, parse, i);
    }
  }

  lemma EncodesProperly(p: Platform, key: Bytes, keyId: string, parse: string -> Option<Index>, x: Index)
    requires Utf8Law(p) && parse(IndexText(x)) == Some(x)
    ensures var v := MakeVault(p, key, keyId, parse);
      v.decode(v.encode(x)) == Some(x) && 1 <= |v.encode(x)| == Utf8Length(IndexText(x))
  {
    AsciiBytes("{");
    Utf8Append("{", MembersText(IndexMembers(x)) + "}");
  }

  lemma EnvelopeSealsProperly(
      p: Platform, key: Bytes, keyId: string, parse: string -> Option<Index>, cutId: string, locator: string,
      plaintext: Bytes, nonce: Bytes)
    requires Lawful(p) && |key| == 32 && KeyIdAdmitted(keyId) && |plaintext| <= MAX_SOURCE_OBJECT_BYTES
    ensures SealsProperly(MakeVault(p, key, keyId, parse), cutId, locator, plaintext, nonce)
  {
    if IsUuid(cutId) && SafeLocator(locator) && |nonce| == 12 {
      DecryptEncrypt(p, plaintext, key, keyId, cutId, locator, nonce);
      CapNeverExceeded(p, plaintext, key, keyId, cutId, locator, nonce);
    }
  }

  type Objects = map<string, Bytes>

  // ---- Names ----------------------------------------------------------------------------------

  function Prefix(destinationId: string, cutId: string): string { destinationId + "/" + cutId + "/database/" }

  function Padded(n: nat): string {
    var digits := Decimal(n);
    if |digits| >= 6 then digits else seq(6 - |digits|, _ => '0') + digits
  }

  function PartLocator(prefix: string, i: nat): string { prefix + "part-" + Padded(i) + ".envelope.json" }

  predicate Contains(s: string, t: string) { exists i :: 0 <= i <= |s| && t <= s[i..] }

  predicate IsPartName(key: string) {
    && |key| >= 35 && var name := key[|key| - 35..];
    && name[..15] == "/database/part-" && name[21..] == ".envelope.json"
    && forall i :: 15 <= i < 21 ==> IsDigit(name[i])
  }

  function MaximumEnvelope(key: string): Option<nat> {
    if !SafeLocator(key) || !EndsWith(key, ".envelope.json") then None
    else if Contains(key, "/objects/") then Some(MAX_R2_ENVELOPE_BYTES)
    else if EndsWith(key, "/database/index.envelope.json") then Some(MAX_INDEX_ENVELOPE_BYTES)
    else if IsPartName(key) then Some(MAX_PART_ENVELOPE_BYTES)
    else None
  }

  // ---- The store ------------------------------------------------------------------------------

  datatype Receipt = Receipt(envelopeBytes: nat, envelopeSha256: string)

  /** The envelope is made, is not over its cap, and can be read back. */
  predicate Sealable(v: Vault, cutId: string, locator: string, plaintext: Bytes, nonce: Bytes) {
    && plaintext != [] && EscapedBytes(locator) <= 195
    && var envelope := v.seal(cutId, locator, plaintext, nonce);
    && envelope.Success? && MaximumEnvelope(locator).Some? && |envelope.value| <= MaximumEnvelope(locator).value
  }

  predicate Extends(a: Objects, b: Objects) { forall k :: k in a ==> k in b && b[k] == a[k] }

  /** What a put leaves: the object, readable under the vault's key. */
  predicate Held(v: Vault, objects: Objects, locator: string, plaintext: Bytes, receipt: Receipt) {
    && locator in objects
    && v.open(objects[locator]) == Success(plaintext)
    && 1 <= |objects[locator]| <= EnvelopeCap(|plaintext|)
    && receipt == Receipt(|objects[locator]|, v.sha256(objects[locator]))
  }

  class BackupStore {
    var objects: Objects
    var usedNonces: set<Bytes>

    /** Encrypt, put without overwriting, read back and decrypt. */
    method PutEncrypted(v: Vault, cutId: string, locator: string, plaintext: Bytes, nonce: Bytes)
      returns (r: Result<Receipt>)
      requires Usable(v) && |plaintext| <= MAX_SOURCE_OBJECT_BYTES
      modifies this
      ensures r.Success? <==>
        && nonce !in old(usedNonces) && locator !in old(objects) && Sealable(v, cutId, locator, plaintext, nonce)
      ensures usedNonces == old(usedNonces) + {nonce} && Extends(old(objects), objects)
      ensures objects.Keys <= old(objects).Keys + {locator}
      ensures r.Success? ==> Held(v, objects, locator, plaintext, r.value) && SafeLocator(locator) && IsUuid(cutId)
    {
      if nonce in usedNonces { return Failure("BACKUP_ENVELOPE_NONCE_REUSE"); }
      usedNonces := usedNonces + {nonce};
      var envelope := v.seal(cutId, locator, plaintext, nonce);
      assert SealsProperly(v, cutId, locator, plaintext, nonce);
      if envelope.Failure? { return Failure(envelope.code); }
      var cap := MaximumEnvelope(locator);
      if cap.None? { return Failure("BACKUP_R2_GET_KEY_INVALID"); }
      if |envelope.value| > cap.value { return Failure("BACKUP_ENVELOPE_TOO_LARGE"); }
      if locator in objects { return Failure("BACKUP_R2_NO_OVERWRITE_VIOLATION"); }
      objects := objects[locator := envelope.value];
      var stored := objects[locator];
      if |stored| != |envelope.value| || v.sha256(stored) != v.sha256(envelope.value) {
        return Failure("BACKUP_R2_ENVELOPE_VERIFY_MISMATCH");
      }
      var decrypted := v.open(stored);
      if decrypted.Failure? { return Failure(decrypted.code); }
      if v.sha256(decrypted.value) != v.sha256(plaintext) { return Failure("BACKUP_R2_VERIFY_MISMATCH"); }
      r := Success(Receipt(|stored|, v.sha256(stored)));
    }
  }

  // ---- Chunks ---------------------------------------------------------------------------------

  function Concat(chunks: seq<Bytes>): Bytes { if chunks == [] then [] else chunks[0] + Concat(chunks[1..]) }

  lemma {:induction false} ConcatOneMore(chunks: seq<Bytes>, chunk: Bytes)
    ensures Concat(chunks + [chunk]) == Concat(chunks) + chunk
  {
    if chunks == [] {
      assert [] + [chunk] == [chunk] && [chunk][1..] == [];
    } else {
      ConcatOneMore(chunks[1..], chunk);
      assert (chunks + [chunk])[1..] == chunks[1..] + [chunk];
    }
  }

  function Min(a: nat, b: nat): nat { if a < b then a else b }

  /** What the k-th read returns: no more than asked for, and perhaps less. */
  function ReadBytes(supply: nat -> nat, chunkBytes: nat, k: nat, remaining: nat): nat {
    Min(supply(k), Min(chunkBytes, remaining))
  }

  // ---- The index ------------------------------------------------------------------------------

  predicate PartAdmitted(part: Part, i: nat, chunkBytes: nat) {
    && part.index == i && SafeLocator(part.locator)
    && 1 <= part.plaintextBytes <= chunkBytes && IsHash(part.plaintextSha256)
    && 1 <= part.envelopeBytes <= MAX_PART_ENVELOPE_BYTES && IsHash(part.envelopeSha256)
  }

  predicate IndexAdmitted(x: Index) {
    && x.version == INDEX_VERSION && IsUuid(x.cutId) && SafeLocator(x.indexLocator)
    && 1 <= x.chunkBytes <= CHUNK_BYTES && 1 <= x.partCount <= MAX_PARTS
    && 1 <= x.totalPlaintextBytes <= MAX_DUMP_BYTES && IsHash(x.dumpHash) && |x.parts| == x.partCount
  }

  function ParseIndex(x: Index): Result<Index> {
    if !IndexAdmitted(x) then Failure("BACKUP_DATABASE_INDEX_INVALID")
    else if exists i :: 0 <= i < |x.parts| && !PartAdmitted(x.parts[i], i, x.chunkBytes) then
      Failure("BACKUP_DATABASE_PART_INDEX_INVALID")
    else Success(x)
  }

  // ---- Restore --------------------------------------------------------------------------------

  function RestorePart(v: Vault, prefix: string, objects: Objects, parts: seq<Part>): nat -> Result<Bytes> {
    (i: nat) =>
      if i >= |parts| || parts[i].index != i || parts[i].locator != PartLocator(prefix, i) then
        Failure("BACKUP_DATABASE_INDEX_ORDER_INVALID")
      else if parts[i].locator !in objects then Failure("BACKUP_R2_GET_FAILED")
      else
        var envelope := objects[parts[i].locator];
        if |envelope| != parts[i].envelopeBytes || v.sha256(envelope) != parts[i].envelopeSha256 then
          Failure("BACKUP_DATABASE_PART_ENVELOPE_MISMATCH")
        else if |envelope| > MAX_PART_ENVELOPE_BYTES then Failure("BACKUP_DATABASE_PART_ENVELOPE_TOO_LARGE")
        else
          var plaintext := v.open(envelope);
          if plaintext.Failure? then plaintext
          else if |plaintext.value| != parts[i].plaintextBytes || v.sha256(plaintext.value) != parts[i].plaintextSha256
          then Failure("BACKUP_DATABASE_PART_PLAINTEXT_MISMATCH")
          else plaintext
  }

  function Indices(n: nat): seq<nat> { seq(n, i => i) }

  function PrefixOf(indexLocator: string): string {
    if |indexLocator| >= |INDEX_NAME| then indexLocator[..|indexLocator| - |INDEX_NAME|] else ""
  }

  /** The index an envelope holds, when it is one and is bound to the cut. */
  function OpenIndex(
      v: Vault, envelope: Bytes, indexLocator: string, cutId: string, dumpHash: string): (r: Result<Index>)
    ensures r.Success? ==> |r.value.parts| == r.value.partCount && r.value.dumpHash == dumpHash
    ensures r.Success? ==> r.value.indexLocator == indexLocator && r.value.cutId == cutId
  {
    if |envelope| > MAX_INDEX_ENVELOPE_BYTES then Failure("BACKUP_DATABASE_INDEX_ENVELOPE_TOO_LARGE")
    else
      var bytes := v.open(envelope);
      if bytes.Failure? then Failure(bytes.code)
      else if |bytes.value| > MAX_INDEX_BYTES then Failure("BACKUP_DATABASE_INDEX_TOO_LARGE")
      else
        var raw := v.decode(bytes.value);
        if raw.None? then Failure("BACKUP_DATABASE_INDEX_INVALID")
        else
          var index := ParseIndex(raw.value);
          if index.Failure? then index
          else if || index.value.indexLocator != indexLocator || index.value.cutId != cutId
                  || index.value.dumpHash != dumpHash then Failure("BACKUP_DATABASE_INDEX_BINDING_MISMATCH")
          else index
  }

  function RestoredParts(v: Vault, index: Index, prefix: string, objects: Objects): Result<seq<Bytes>> {
    var chunks := Traverse(RestorePart(v, prefix, objects, index.parts), Indices(|index.parts|));
    if chunks.Failure? then chunks
    else if |Concat(chunks.value)| != index.totalPlaintextBytes || v.sha256(Concat(chunks.value)) != index.dumpHash
    then Failure("BACKUP_DATABASE_OVERALL_DIGEST_MISMATCH")
    else chunks
  }

  /** The chunks delivered by a restore that returns, in order. */
  function Restored(
      v: Vault, envelope: Bytes, indexLocator: string, cutId: string, dumpHash: string,
      objects: Objects): Result<seq<Bytes>> {
    var index := OpenIndex(v, envelope, indexLocator, cutId, dumpHash);
    if index.Failure? then Failure(index.code) else RestoredParts(v, index.value, PrefixOf(indexLocator), objects)
  }

  /** The restore loop: `delivered` is what has been handed to the caller, also when it fails half way. */
  method DeliverParts(restore: nat -> Result<Bytes>, count: nat)
    returns (failed: Option<string>, delivered: seq<Bytes>, hashed: Bytes, total: nat)
    ensures failed.Some? ==> Traverse(restore, Indices(count)) == Failure(failed.value)
    ensures failed.None? ==> Traverse(restore, Indices(count)) == Success(delivered)
    ensures hashed == Concat(delivered) && total == |hashed|
  {
    failed, delivered, hashed, total := None, [], [], 0;
    ghost var cursors := Indices(count);
    assert cursors[0..] == cursors;
    PrependedNothing(Traverse(restore, cursors));
    for cursor := 0 to count
      invariant failed.None? && hashed == Concat(delivered) && total == |hashed|
      invariant Prepended(delivered, Traverse(restore, cursors[cursor..])) == Traverse(restore, cursors)
    {
      var plaintext := restore(cursor);
      TraverseStep(restore, cursors[cursor..], delivered);
      assert cursors[cursor..][1..] == cursors[cursor + 1..] && cursors[cursor..][0] == cursor;
      if plaintext.Failure? { return Some(plaintext.code), delivered, hashed, total; }
      ConcatOneMore(delivered, plaintext.value);
      hashed, total := hashed + plaintext.value, total + |plaintext.value|;
      delivered := delivered + [plaintext.value];
    }
    assert cursors[count..] == [] && delivered + [] == delivered;
  }

  method RestoreIndexed(v: Vault, index: Index, prefix: string, objects: Objects)
    returns (r: Result<(nat, nat)>, delivered: seq<Bytes>)
    ensures r.Success? <==> RestoredParts(v, index, prefix, objects).Success?
    ensures r.Success? ==>
      && RestoredParts(v, index, prefix, objects) == Success(delivered)
      && r.value == (index.partCount, |Concat(delivered)|)
  {
    var failed, chunks, hashed, total := DeliverParts(RestorePart(v, prefix, objects, index.parts), |index.parts|);
    delivered := chunks;
    if failed.Some? { return Failure(failed.value), delivered; }
    if total != index.totalPlaintextBytes || v.sha256(hashed) != index.dumpHash {
      return Failure("BACKUP_DATABASE_OVERALL_DIGEST_MISMATCH"), delivered;
    }
    r := Success((index.partCount, total));
  }

  method RestoreDatabaseDump(
      v: Vault, envelope: Bytes, indexLocator: string, cutId: string, dumpHash: string, objects: Objects)
    returns (r: Result<(nat, nat)>, delivered: seq<Bytes>)
    ensures r.Success? <==> Restored(v, envelope, indexLocator, cutId, dumpHash, objects).Success?
    ensures r.Success? ==>
      && Restored(v, envelope, indexLocator, cutId, dumpHash, objects) == Success(delivered)
      && r.value == (|delivered|, |Concat(delivered)|)
  {
    var index := OpenIndex(v, envelope, indexLocator, cutId, dumpHash);
    if index.Failure? { return Failure(index.code), []; }
    r, delivered := RestoreIndexed(v, index.value, PrefixOf(indexLocator), objects);
  }
}

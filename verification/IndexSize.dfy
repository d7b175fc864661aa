/**
 The size of a database chunk index: 512 parts with locators that can be read back always fit its limit
 (apps/api/maintenance/backup/direct-provider.ts).
 */
module IndexSize {
  import opened Text
  import opened Json
  import opened Envelope
  import opened DatabaseBackup

  const PART_BYTES: nat := 480

  /** A part as the capture describes it. */
  predicate Modest(part: Part) {
    && part.index < 100_000_000 && part.plaintextBytes < 100_000_000 && part.envelopeBytes < 100_000_000
    && IsHash(part.plaintextSha256) && IsHash(part.envelopeSha256) && EscapedBytes(part.locator) <= 195
  }

  lemma PartNamesPlain(part: Part)
    ensures PlainNames(PartMembers(part))
  {
    assert Plain("envelopeBytes") && Plain("envelopeSha256") && Plain("index");
    assert Plain("locator") && Plain("plaintextBytes") && Plain("plaintextSha256");
  }

  lemma PartSum(part: Part)
    ensures Utf8Length(ObjectText(PartMembers(part))) ==
      99 + |Decimal(part.envelopeBytes)| + EscapedBytes(part.envelopeSha256) + |Decimal(part.index)|
      + EscapedBytes(part.locator) + |Decimal(part.plaintextBytes)| + EscapedBytes(part.plaintextSha256)
  {
    var ms := PartMembers(part);
    var a, b := ms[..3], ms[3..];
    PartNamesPlain(part);
    ObjectSize(ms);
    assert ms == a + b;
    MembersAppend(a, b);
    ThreeMembers(ms[0], ms[1], ms[2]);
    ThreeMembers(ms[3], ms[4], ms[5]);
    assert a == [ms[0], ms[1], ms[2]] && b == [ms[3], ms[4], ms[5]];
  }

  lemma PartFits(part: Part)
    requires Modest(part)
    ensures Utf8Length(ObjectText(PartMembers(part))) <= PART_BYTES
  {
    PartSum(part);
    EightDigits(part.envelopeBytes);
    EightDigits(part.index);
    EightDigits(part.plaintextBytes);
    HashPlain(part.plaintextSha256);
    HashPlain(part.envelopeSha256);
  }

  lemma PartsFit(parts: seq<Part>)
    requires |parts| <= MAX_PARTS && forall i :: 0 <= i < |parts| ==> Modest(parts[i])
    ensures Utf8Length(Join(PartTexts(parts))) <= MAX_PARTS * (PART_BYTES + 1)
  {
    forall i | 0 <= i < |parts| ensures Utf8Length(PartTexts(parts)[i]) <= PART_BYTES { PartFits(parts[i]); }
    JoinBound(PartTexts(parts), PART_BYTES);
    Scale(|parts|, MAX_PARTS, PART_BYTES + 1);
  }

  lemma Scale(a: nat, b: nat, c: nat)
    requires a <= b
    ensures a * c <= b * c
  {
  }

  lemma IndexNamesPlain(x: Index)
    ensures PlainNames(IndexMembers(x))
  {
    assert Plain("chunkBytes") && Plain("cutId") && Plain("dumpHashSha256") && Plain("indexLocator");
    assert Plain("partCount") && Plain("parts") && Plain("totalPlaintextBytes") && Plain("version");
  }

  lemma IndexSum(x: Index)
    ensures Utf8Length(IndexText(x)) ==
      124 + |Decimal(x.chunkBytes)| + EscapedBytes(x.cutId) + EscapedBytes(x.dumpHash) + EscapedBytes(x.indexLocator)
      + |Decimal(x.partCount)| + Utf8Length(Join(PartTexts(x.parts)))
      + |Decimal(x.totalPlaintextBytes)| + EscapedBytes(x.version)
  {
    var ms := IndexMembers(x);
    var a, b := ms[..4], ms[4..];
    IndexNamesPlain(x);
    ObjectSize(ms);
    assert ms == a + b;
    MembersAppend(a, b);
    FourMembers(ms[0], ms[1], ms[2], ms[3]);
    FourMembers(ms[4], ms[5], ms[6], ms[7]);
    assert a == [ms[0], ms[1], ms[2], ms[3]] && b == [ms[4], ms[5], ms[6], ms[7]];
  }

  /** An index of at most 512 such parts fits, whatever the dump and whatever safe locator the index itself has. */
  lemma IndexFits(x: Index)
    requires x.version == INDEX_VERSION && IsUuid(x.cutId) && IsHash(x.dumpHash) && Units(x.indexLocator) <= 2048
    requires x.chunkBytes <= CHUNK_BYTES && x.partCount == |x.parts| <= MAX_PARTS
    requires x.totalPlaintextBytes <= MAX_DUMP_BYTES
    requires forall i :: 0 <= i < |x.parts| ==> Modest(x.parts[i])
    ensures Utf8Length(IndexText(x)) <= MAX_INDEX_BYTES
  {
    IndexSum(x);
    PartsFit(x.parts);
    EightDigits(x.chunkBytes);
    EightDigits(x.partCount);
    TenDigits(x.totalPlaintextBytes);
    UuidPlain(x.cutId);
    HashPlain(x.dumpHash);
    EscapedBound(x.indexLocator);
    VersionPlain(x.version);
  }

  lemma VersionPlain(version: string)
    requires version == INDEX_VERSION
    ensures EscapedBytes(version) == 30
  {
    PlainBytes(version);
  }
}

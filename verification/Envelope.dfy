/**
 The encrypted backup envelope (apps/api/maintenance/backup/direct-provider.ts).

 `Platform` stands for the library: the digest, the cipher, UTF-8 and the JSON parser are functions
 of which only `Lawful` is known. Sizes, base64 and the envelope text are concrete.
 */
module Envelope {
  import opened Outcomes
  import opened Octets
  import opened Text
  import opened Json
  import opened Base64

  const VERSION := "backup-aes-256-gcm-envelope/v1"
  const ALGORITHM := "AES-256-GCM"
  const METADATA_MAX_BYTES: nat := 256 * 1024
  const MAX_SOURCE_OBJECT_BYTES: nat := 24 * 1024 * 1024
  const CHUNK_BYTES: nat := 16 * 1024 * 1024
  const MAX_DUMP_BYTES: nat := 8 * 1024 * 1024 * 1024
  const MAX_PARTS: nat := 512
  const MAX_INDEX_BYTES: nat := 64 * 1024 + MAX_PARTS * 4 * 1024
  const STRICT_STRING_MAX: nat := 512

  function EnvelopeCap(plaintextBytes: nat): nat { 4 * ((plaintextBytes + 2) / 3) + METADATA_MAX_BYTES }

  const MAX_R2_ENVELOPE_BYTES: nat := EnvelopeCap(MAX_SOURCE_OBJECT_BYTES)

  datatype Sealed = Sealed(
    version: string, algorithm: string, keyId: string, cutId: string, locator: string, plaintextSha256: string,
    plaintextBytes: nat, nonceBase64: string, aadBase64: string, ciphertextBase64: string, authTagBase64: string)

  datatype Platform = Platform(
    sha256: Bytes -> string,
    encipher: (Bytes, Bytes, Bytes, Bytes) -> (Bytes, Bytes),
    decipher: (Bytes, Bytes, Bytes, Bytes, Bytes) -> Option<Bytes>,
    utf8: string -> Bytes,
    toText: Bytes -> string,
    lenientBase64: string -> Bytes,
    parseSealed: string -> Option<Sealed>)

  ghost predicate HashLaw(p: Platform) { forall b :: IsHash(p.sha256(b)) }

  ghost predicate CipherLaw(p: Platform) {
    forall key, nonce, aad, m :: |key| == 32 && |nonce| == 12 ==>
      Deciphers(p, key, nonce, aad, m, p.encipher(key, nonce, aad, m))
  }

  predicate Deciphers(p: Platform, key: Bytes, nonce: Bytes, aad: Bytes, m: Bytes, sealed: (Bytes, Bytes)) {
    |sealed.0| == |m| && |sealed.1| == 16 && p.decipher(key, nonce, aad, sealed.0, sealed.1) == Some(m)
  }

  ghost predicate Utf8Law(p: Platform) { forall s :: |p.utf8(s)| == Utf8Length(s) && p.toText(p.utf8(s)) == s }

  ghost predicate Base64Law(p: Platform) { forall b: Bytes :: p.lenientBase64(Encode(b)) == b }

  ghost predicate ParseLaw(p: Platform) { forall e :: p.parseSealed(SealedText(e)) == Some(e) }

  ghost predicate Lawful(p: Platform) { HashLaw(p) && CipherLaw(p) && Utf8Law(p) && Base64Law(p) && ParseLaw(p) }

  function AadMembers(version: string, cutId: string, locator: string, sha256: string): seq<Member> {
    [Text("cutId", cutId), Text("locator", locator), Text("plaintextSha256", sha256), Text("version", version)]
  }

  function AadText(cutId: string, locator: string, sha256: string): string {
    ObjectText(AadMembers(VERSION, cutId, locator, sha256))
  }

  function CipherMembers(e: Sealed): seq<Member> {
    [Text("aadBase64", e.aadBase64), Text("algorithm", e.algorithm), Text("authTagBase64", e.authTagBase64),
     Text("ciphertextBase64", e.ciphertextBase64)]
  }

  function NameMembers(e: Sealed): seq<Member> {
    [Text("cutId", e.cutId), Text("keyId", e.keyId), Text("locator", e.locator), Text("nonceBase64", e.nonceBase64)]
  }

  function ContentMembers(e: Sealed): seq<Member> {
    [Number("plaintextBytes", e.plaintextBytes), Text("plaintextSha256", e.plaintextSha256), Text("version", e.version)]
  }

  function SealedText(e: Sealed): string { ObjectText(CipherMembers(e) + (NameMembers(e) + ContentMembers(e))) }

  predicate SafeLocator(s: string) {
    && s != "" && Units(s) <= 2048 && s[0] != '/' && '\\' !in s && '\0' !in s
    && forall segment :: segment in Segments(s) ==> segment != "" && segment != "." && segment != ".."
  }

  function Encrypt(
      p: Platform, plaintext: Bytes, key: Bytes, keyId: string, cutId: string, locator: string,
      nonce: Bytes): Result<Bytes> {
    if |key| != 32 || !IsUuid(cutId) || !SafeLocator(locator) then Failure("BACKUP_ENVELOPE_INPUT_INVALID")
    else if |nonce| != 12 then Failure("BACKUP_ENVELOPE_NONCE_INVALID")
    else Success(p.utf8(SealedText(Seal(p, plaintext, key, keyId, cutId, locator, nonce))))
  }

  function Seal(
      p: Platform, plaintext: Bytes, key: Bytes, keyId: string, cutId: string, locator: string, nonce: Bytes): Sealed {
    var sha256 := p.sha256(plaintext);
    var aad := p.utf8(AadText(cutId, locator, sha256));
    var sealed := p.encipher(key, nonce, aad, plaintext);
    Record(keyId, cutId, locator, sha256, |plaintext|, nonce, aad, sealed.0, sealed.1)
  }

  function Record(
      keyId: string, cutId: string, locator: string, sha256: string, size: nat, nonce: Bytes, aad: Bytes,
      ciphertext: Bytes, tag: Bytes): Sealed {
    Sealed(
      VERSION, ALGORITHM, keyId, cutId, locator, sha256, size,
      Encode(nonce), Encode(aad), Encode(ciphertext), Encode(tag))
  }

  predicate IsSpace(c: char) {
    var n := c as int;
    9 <= n <= 13 || n in {32, 0xA0, 0x1680, 0x2028, 0x2029, 0x202F, 0x205F, 0x3000, 0xFEFF} || 0x2000 <= n <= 0x200A
  }

  /** Non-empty, at most 512 units, and without surrounding white space. */
  predicate StrictString(s: string) {
    s != "" && Units(s) <= STRICT_STRING_MAX && !IsSpace(s[0]) && !IsSpace(s[|s| - 1])
  }

  predicate Identified(e: Sealed, keyId: string) {
    && e.version == VERSION && e.algorithm == ALGORITHM && e.keyId == keyId
    && IsUuid(e.cutId) && SafeLocator(e.locator) && IsHash(e.plaintextSha256)
  }

  function Unseal(p: Platform, e: Sealed, key: Bytes, keyId: string): Result<Bytes> {
    if !Identified(e, keyId) then Failure("BACKUP_ENVELOPE_INVALID")
    else
      OpenDecoded(p, e, key, StrictBase64(e.nonceBase64, 12), StrictBase64(e.authTagBase64, 16),
        StrictBase64(e.ciphertextBase64, e.plaintextBytes))
  }

  function OpenDecoded(
      p: Platform, e: Sealed, key: Bytes, nonce: Result<Bytes>, tag: Result<Bytes>,
      ciphertext: Result<Bytes>): Result<Bytes> {
    if nonce.Failure? || tag.Failure? || ciphertext.Failure? || !StrictString(e.aadBase64) then
      Failure("BACKUP_ENVELOPE_INVALID")
    else Open(p, e, key, nonce.value, tag.value, ciphertext.value)
  }

  function Open(p: Platform, e: Sealed, key: Bytes, nonce: Bytes, tag: Bytes, ciphertext: Bytes): Result<Bytes> {
    var aad := AadText(e.cutId, e.locator, e.plaintextSha256);
    if p.toText(p.lenientBase64(e.aadBase64)) != aad then Failure("BACKUP_ENVELOPE_AAD_MISMATCH")
    else
      var plaintext := p.decipher(key, nonce, p.utf8(aad), ciphertext, tag);
      if plaintext.None? then Failure("BACKUP_ENVELOPE_AUTHENTICATION_FAILED")
      else if |plaintext.value| != e.plaintextBytes || p.sha256(plaintext.value) != e.plaintextSha256 then
        Failure("BACKUP_ENVELOPE_PLAINTEXT_MISMATCH")
      else Success(plaintext.value)
  }

  function Decrypt(p: Platform, envelope: Bytes, key: Bytes, keyId: string): Result<Bytes> {
    if |envelope| < 1 || |envelope| > MAX_R2_ENVELOPE_BYTES then Failure("BACKUP_ENVELOPE_TOO_LARGE")
    else
      var parsed := p.parseSealed(p.toText(envelope));
      if parsed.None? then Failure("BACKUP_ENVELOPE_INVALID") else Unseal(p, parsed.value, key, keyId)
  }

  // ---- Sizes ----------------------------------------------------------------------------------

  lemma UuidPlain(s: string)
    requires IsUuid(s)
    ensures EscapedBytes(s) == 36
  {
    PlainBytes(s);
  }

  lemma HashPlain(s: string)
    requires IsHash(s)
    ensures EscapedBytes(s) == 64
  {
    PlainBytes(s);
  }

  lemma {:induction false} EncodePlain(bytes: Bytes)
    ensures Plain(Encode(bytes))
  {
    if |bytes| > 2 { EncodePlain(bytes[3..]); }
  }

  lemma {:induction false} PlainUnits(s: string)
    requires Plain(s)
    ensures Units(s) == |s|
  {
    if s != "" { PlainUnits(s[1..]); }
  }

  /** The associated data takes 189 bytes beside the locator. */
  lemma AadBytes(version: string, cutId: string, locator: string, sha256: string)
    requires version == VERSION && IsUuid(cutId) && IsHash(sha256)
    ensures Utf8Length(AadText(cutId, locator, sha256)) == 189 + EscapedBytes(locator)
  {
    AadSum(version, cutId, locator, sha256);
    FixedFields(version, cutId, sha256);
  }

  lemma AadSum(version: string, cutId: string, locator: string, sha256: string)
    ensures Utf8Length(ObjectText(AadMembers(version, cutId, locator, sha256))) ==
      59 + EscapedBytes(cutId) + EscapedBytes(locator) + EscapedBytes(sha256) + EscapedBytes(version)
  {
    var ms := AadMembers(version, cutId, locator, sha256);
    AadNamesPlain(version, cutId, locator, sha256);
    ObjectSize(ms);
    FourMembers(ms[0], ms[1], ms[2], ms[3]);
  }

  lemma AadNamesPlain(version: string, cutId: string, locator: string, sha256: string)
    ensures PlainNames(AadMembers(version, cutId, locator, sha256))
  {
    assert Plain("cutId") && Plain("locator") && Plain("plaintextSha256") && Plain("version");
  }

  lemma FixedFields(version: string, cutId: string, sha256: string)
    requires version == VERSION && IsUuid(cutId) && IsHash(sha256)
    ensures EscapedBytes(version) == 30 && EscapedBytes(cutId) == 36 && EscapedBytes(sha256) == 64
  {
    PlainBytes(version);
    UuidPlain(cutId);
    HashPlain(sha256);
  }

  /** Its base64 fits the default string limit exactly when the locator takes at most 195 bytes. */
  lemma AadFits(locatorBytes: nat)
    ensures 4 * ((189 + locatorBytes + 2) / 3) <= STRICT_STRING_MAX <==> locatorBytes <= 195
  {
  }

  lemma EncodeBytes(bytes: Bytes)
    ensures EscapedBytes(Encode(bytes)) == 4 * ((|bytes| + 2) / 3)
  {
    EncodePlain(bytes);
    PlainBytes(Encode(bytes));
  }

  /** The size of an envelope, from the sizes of its members. */
  function EnvelopeSize(e: Sealed): nat {
    176 + EscapedBytes(e.nonceBase64) + |Decimal(e.plaintextBytes)|
    + EscapedBytes(e.plaintextSha256) + EscapedBytes(e.version)
    + EscapedBytes(e.cutId) + EscapedBytes(e.keyId) + EscapedBytes(e.locator) + EscapedBytes(e.aadBase64)
    + EscapedBytes(e.algorithm) + EscapedBytes(e.authTagBase64) + EscapedBytes(e.ciphertextBase64)
  }

  lemma RecordSize(
      keyId: string, cutId: string, locator: string, sha256: string, size: nat, nonce: Bytes, aad: Bytes,
      ciphertext: Bytes, tag: Bytes)
    requires IsUuid(cutId) && IsHash(sha256) && KeyIdAdmitted(keyId)
    requires |nonce| == 12 && |tag| == 16
    ensures EnvelopeSize(Record(keyId, cutId, locator, sha256, size, nonce, aad, ciphertext, tag)) ==
      357 + |keyId| + EscapedBytes(locator) + |Decimal(size)| + 4 * ((|aad| + 2) / 3) + 4 * ((|ciphertext| + 2) / 3)
  {
    var e := Record(keyId, cutId, locator, sha256, size, nonce, aad, ciphertext, tag);
    AlgorithmPlain(e.algorithm);
    FixedFields(e.version, cutId, sha256);
    PlainBytes(keyId);
    FixedEncodings(nonce, tag);
    EncodeBytes(aad);
    EncodeBytes(ciphertext);
    SizeSum(e, 4 * ((|aad| + 2) / 3), 4 * ((|ciphertext| + 2) / 3));
  }

  lemma FixedEncodings(nonce: Bytes, tag: Bytes)
    requires |nonce| == 12 && |tag| == 16
    ensures EscapedBytes(Encode(nonce)) == 16 && EscapedBytes(Encode(tag)) == 24
  {
    EncodeExactly(nonce, 16);
    EncodeExactly(tag, 24);
  }

  lemma EncodeExactly(bytes: Bytes, size: nat)
    requires size == 4 * ((|bytes| + 2) / 3)
    ensures EscapedBytes(Encode(bytes)) == size
  {
    EncodeBytes(bytes);
  }

  lemma SizeSum(e: Sealed, aadSize: nat, ciphertextSize: nat)
    requires EscapedBytes(e.nonceBase64) == 16 && EscapedBytes(e.authTagBase64) == 24
    requires EscapedBytes(e.aadBase64) == aadSize && EscapedBytes(e.ciphertextBase64) == ciphertextSize
    requires EscapedBytes(e.version) == 30 && EscapedBytes(e.algorithm) == 11 && EscapedBytes(e.keyId) == |e.keyId|
    requires EscapedBytes(e.cutId) == 36 && EscapedBytes(e.plaintextSha256) == 64
    ensures EnvelopeSize(e) ==
      357 + |e.keyId| + EscapedBytes(e.locator) + |Decimal(e.plaintextBytes)| + aadSize + ciphertextSize
  {
  }

  lemma AlgorithmPlain(algorithm: string)
    requires algorithm == ALGORITHM
    ensures EscapedBytes(algorithm) == 11
  {
    PlainBytes(algorithm);
  }

  lemma TextSize(e: Sealed)
    ensures Utf8Length(SealedText(e)) == EnvelopeSize(e)
  {
    var a, b, c := CipherMembers(e), NameMembers(e), ContentMembers(e);
    CipherNamesPlain(e);
    NameNamesPlain(e);
    ContentNamesPlain(e);
    NamesAppend(b, c);
    NamesAppend(a, b + c);
    ObjectSize(a + (b + c));
    MembersAppend(a, b + c);
    MembersAppend(b, c);
    FourMembers(a[0], a[1], a[2], a[3]);
    FourMembers(b[0], b[1], b[2], b[3]);
    ThreeMembers(c[0], c[1], c[2]);
  }

  lemma CipherNamesPlain(e: Sealed)
    ensures PlainNames(CipherMembers(e))
  {
    assert Plain("aadBase64") && Plain("algorithm");
    assert Plain("authTagBase64") && Plain("ciphertextBase64");
  }

  lemma NameNamesPlain(e: Sealed)
    ensures PlainNames(NameMembers(e))
  {
    assert Plain("cutId") && Plain("keyId") && Plain("locator") && Plain("nonceBase64");
  }

  lemma ContentNamesPlain(e: Sealed)
    ensures PlainNames(ContentMembers(e))
  {
    assert Plain("plaintextBytes") && Plain("plaintextSha256") && Plain("version");
  }

  lemma SealSize(p: Platform, plaintext: Bytes, key: Bytes, keyId: string, cutId: string, locator: string, nonce: Bytes)
    requires HashLaw(p) && CipherLaw(p) && Utf8Law(p)
    requires |key| == 32 && |nonce| == 12 && IsUuid(cutId) && KeyIdAdmitted(keyId)
    ensures EnvelopeSize(Seal(p, plaintext, key, keyId, cutId, locator, nonce)) ==
      357 + |keyId| + EscapedBytes(locator) + |Decimal(|plaintext|)|
      + 4 * ((189 + EscapedBytes(locator) + 2) / 3) + 4 * ((|plaintext| + 2) / 3)
  {
    var sha256 := p.sha256(plaintext);
    AadSize(p, cutId, locator, sha256);
    var aad := p.utf8(AadText(cutId, locator, sha256));
    var sealed := p.encipher(key, nonce, aad, plaintext);
    assert Deciphers(p, key, nonce, aad, plaintext, sealed);
    RecordSize(keyId, cutId, locator, sha256, |plaintext|, nonce, aad, sealed.0, sealed.1);
  }

  lemma AadSize(p: Platform, cutId: string, locator: string, sha256: string)
    requires Utf8Law(p) && IsUuid(cutId) && IsHash(sha256)
    ensures |p.utf8(AadText(cutId, locator, sha256))| == 189 + EscapedBytes(locator)
  {
    AadBytes(VERSION, cutId, locator, sha256);
  }

  /** The key names the provider binding admits: at most 128 plain characters. */
  predicate KeyIdAdmitted(keyId: string) { |keyId| <= 128 && Plain(keyId) }

  lemma SealCap(p: Platform, plaintext: Bytes, key: Bytes, keyId: string, cutId: string, locator: string, nonce: Bytes)
    requires HashLaw(p) && CipherLaw(p) && Utf8Law(p) && |key| == 32 && |nonce| == 12 && IsUuid(cutId)
    requires Units(locator) <= 2048 && KeyIdAdmitted(keyId) && |plaintext| <= MAX_SOURCE_OBJECT_BYTES
    ensures 1 <= EnvelopeSize(Seal(p, plaintext, key, keyId, cutId, locator, nonce)) <= EnvelopeCap(|plaintext|)
  {
    SealSize(p, plaintext, key, keyId, cutId, locator, nonce);
    EscapedBound(locator);
    EightDigits(|plaintext|);
  }

  lemma SealedTextSize(p: Platform, e: Sealed)
    requires Utf8Law(p)
    ensures |p.utf8(SealedText(e))| == EnvelopeSize(e)
  {
    TextSize(e);
  }

  /** The size cap is never what stops an envelope, whatever the locator. */
  lemma CapNeverExceeded(
      p: Platform, plaintext: Bytes, key: Bytes, keyId: string, cutId: string, locator: string, nonce: Bytes)
    requires Lawful(p) && KeyIdAdmitted(keyId) && |plaintext| <= MAX_SOURCE_OBJECT_BYTES
    requires Encrypt(p, plaintext, key, keyId, cutId, locator, nonce).Success?
    ensures 1 <= |Encrypt(p, plaintext, key, keyId, cutId, locator, nonce).value| <= EnvelopeCap(|plaintext|)
  {
    SealCap(p, plaintext, key, keyId, cutId, locator, nonce);
    SealedTextSize(p, Seal(p, plaintext, key, keyId, cutId, locator, nonce));
  }

  // ---- Round trip -----------------------------------------------------------------------------

  lemma EncodeStrict(bytes: Bytes)
    requires bytes != []
    ensures StrictString(Encode(bytes)) <==> |Encode(bytes)| <= STRICT_STRING_MAX
  {
    EncodePlain(bytes);
    PlainUnits(Encode(bytes));
    EncodePadded(bytes);
  }

  lemma AadStrict(p: Platform, cutId: string, locator: string, sha256: string)
    requires Utf8Law(p) && IsUuid(cutId) && IsHash(sha256)
    ensures StrictString(Encode(p.utf8(AadText(cutId, locator, sha256)))) <==> EscapedBytes(locator) <= 195
  {
    AadSize(p, cutId, locator, sha256);
    AadFits(EscapedBytes(locator));
    EncodeStrict(p.utf8(AadText(cutId, locator, sha256)));
  }

  lemma StrictBack(bytes: Bytes, size: nat)
    requires |bytes| == size
    ensures StrictBase64(Encode(bytes), size) ==
      if bytes != [] then Success(bytes) else Failure("BACKUP_ENVELOPE_INVALID")
  {
    if bytes != [] { StrictExact(Encode(bytes), size, bytes); }
  }

  lemma OpenRecord(p: Platform, plaintext: Bytes, key: Bytes, nonce: Bytes, e: Sealed)
    requires CipherLaw(p) && Utf8Law(p) && Base64Law(p) && |key| == 32 && |nonce| == 12
    requires e.plaintextBytes == |plaintext| && e.plaintextSha256 == p.sha256(plaintext)
    requires e.aadBase64 == Encode(p.utf8(AadText(e.cutId, e.locator, e.plaintextSha256)))
    ensures var aad := p.utf8(AadText(e.cutId, e.locator, e.plaintextSha256));
      var sealed := p.encipher(key, nonce, aad, plaintext);
      Open(p, e, key, nonce, sealed.1, sealed.0) == Success(plaintext)
  {
    var text := AadText(e.cutId, e.locator, e.plaintextSha256);
    var sealed := p.encipher(key, nonce, p.utf8(text), plaintext);
    assert Deciphers(p, key, nonce, p.utf8(text), plaintext, sealed);
    assert p.lenientBase64(e.aadBase64) == p.utf8(text);
  }

  lemma OpenDecodedRecord(
      p: Platform, plaintext: Bytes, key: Bytes, nonce: Bytes, e: Sealed, aad: Bytes, sealed: (Bytes, Bytes))
    requires CipherLaw(p) && Utf8Law(p) && Base64Law(p) && |key| == 32 && |nonce| == 12
    requires IsUuid(e.cutId) && IsHash(e.plaintextSha256)
    requires e.plaintextBytes == |plaintext| && e.plaintextSha256 == p.sha256(plaintext) && e.aadBase64 == Encode(aad)
    requires aad == p.utf8(AadText(e.cutId, e.locator, e.plaintextSha256))
    requires sealed == p.encipher(key, nonce, aad, plaintext)
    ensures OpenDecoded(p, e, key, Success(nonce), Success(sealed.1), Success(sealed.0)) ==
      if EscapedBytes(e.locator) <= 195 then Success(plaintext) else Failure("BACKUP_ENVELOPE_INVALID")
  {
    AadStrict(p, e.cutId, e.locator, e.plaintextSha256);
    OpenRecord(p, plaintext, key, nonce, e);
  }

  lemma UnsealRecord(p: Platform, key: Bytes, keyId: string, e: Sealed, nonce: Bytes, sealed: (Bytes, Bytes))
    requires Identified(e, keyId) && |nonce| == 12 && |sealed.1| == 16 && |sealed.0| == e.plaintextBytes
    requires e.nonceBase64 == Encode(nonce) && e.authTagBase64 == Encode(sealed.1)
    requires e.ciphertextBase64 == Encode(sealed.0)
    ensures Unseal(p, e, key, keyId) ==
      if sealed.0 == [] then Failure("BACKUP_ENVELOPE_INVALID")
      else OpenDecoded(p, e, key, Success(nonce), Success(sealed.1), Success(sealed.0))
  {
    StrictBack(nonce, 12);
    StrictBack(sealed.1, 16);
    StrictBack(sealed.0, e.plaintextBytes);
  }

  lemma UnsealSeal(
      p: Platform, plaintext: Bytes, key: Bytes, keyId: string, cutId: string, locator: string, nonce: Bytes)
    requires HashLaw(p) && CipherLaw(p) && Utf8Law(p) && Base64Law(p)
    requires |key| == 32 && |nonce| == 12 && IsUuid(cutId) && SafeLocator(locator)
    ensures Unseal(p, Seal(p, plaintext, key, keyId, cutId, locator, nonce), key, keyId) ==
      if plaintext != [] && EscapedBytes(locator) <= 195 then Success(plaintext) else Failure("BACKUP_ENVELOPE_INVALID")
  {
    var e := Seal(p, plaintext, key, keyId, cutId, locator, nonce);
    var aad := p.utf8(AadText(cutId, locator, e.plaintextSha256));
    var sealed := p.encipher(key, nonce, aad, plaintext);
    assert Deciphers(p, key, nonce, aad, plaintext, sealed);
    assert Identified(e, keyId);
    UnsealRecord(p, key, keyId, e, nonce, sealed);
    OpenDecodedRecord(p, plaintext, key, nonce, e, aad, sealed);
  }

  /**
   Decryption inverts encryption exactly for a non-empty plaintext and a locator of at most 195 bytes;
   an envelope made for any other input is refused.
   */
  lemma DecryptEncrypt(
      p: Platform, plaintext: Bytes, key: Bytes, keyId: string, cutId: string, locator: string, nonce: Bytes)
    requires Lawful(p) && KeyIdAdmitted(keyId) && |plaintext| <= MAX_SOURCE_OBJECT_BYTES
    requires Encrypt(p, plaintext, key, keyId, cutId, locator, nonce).Success?
    ensures Decrypt(p, Encrypt(p, plaintext, key, keyId, cutId, locator, nonce).value, key, keyId) ==
      if plaintext != [] && EscapedBytes(locator) <= 195 then Success(plaintext) else Failure("BACKUP_ENVELOPE_INVALID")
  {
    CapNeverExceeded(p, plaintext, key, keyId, cutId, locator, nonce);
    CapMonotone(|plaintext|, MAX_SOURCE_OBJECT_BYTES);
    DecryptSealed(p, plaintext, key, keyId, cutId, locator, nonce);
  }

  lemma CapMonotone(m: nat, n: nat)
    requires m <= n
    ensures EnvelopeCap(m) <= EnvelopeCap(n)
  {
  }

  lemma DecryptSealed(
      p: Platform, plaintext: Bytes, key: Bytes, keyId: string, cutId: string, locator: string, nonce: Bytes)
    requires HashLaw(p) && CipherLaw(p) && Utf8Law(p) && Base64Law(p) && ParseLaw(p)
    requires |key| == 32 && |nonce| == 12 && IsUuid(cutId) && SafeLocator(locator)
    requires 1 <= |p.utf8(SealedText(Seal(p, plaintext, key, keyId, cutId, locator, nonce)))| <= MAX_R2_ENVELOPE_BYTES
    ensures Decrypt(p, p.utf8(SealedText(Seal(p, plaintext, key, keyId, cutId, locator, nonce))), key, keyId) ==
      if plaintext != [] && EscapedBytes(locator) <= 195 then Success(plaintext) else Failure("BACKUP_ENVELOPE_INVALID")
  {
    var e := Seal(p, plaintext, key, keyId, cutId, locator, nonce);
    UnsealSeal(p, plaintext, key, keyId, cutId, locator, nonce);
    DecryptText(p, e, key, keyId);
  }

  lemma DecryptText(p: Platform, e: Sealed, key: Bytes, keyId: string)
    requires Utf8Law(p) && ParseLaw(p) && 1 <= |p.utf8(SealedText(e))| <= MAX_R2_ENVELOPE_BYTES
    ensures Decrypt(p, p.utf8(SealedText(e)), key, keyId) == Unseal(p, e, key, keyId)
  {
  }
}

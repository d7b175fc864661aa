/**
 Which envelopes can be opened (apps/api/maintenance/backup/direct-provider.ts): exactly those that encryption
 makes under the same key and key name, up to the base64 spelling of the associated data.
 */
module EnvelopeOpening {
  import opened Outcomes
  import opened Octets
  import opened Text
  import opened Base64
  import opened Envelope

  /** Deciphering accepts only what enciphering gives for the same key, nonce and associated data. */
  ghost predicate AuthenticLaw(p: Platform) {
    forall key, nonce, aad, ciphertext, tag, m: Bytes :: |key| == 32 && |nonce| == 12 ==>
      (p.decipher(key, nonce, aad, ciphertext, tag) == Some(m) ==> p.encipher(key, nonce, aad, m) == (ciphertext, tag))
  }

  /** The associated data is spelled in some base64 of the text that names cut, place and content. */
  predicate AadSpelled(p: Platform, e: Sealed) {
    && StrictString(e.aadBase64)
    && p.toText(p.lenientBase64(e.aadBase64)) == AadText(e.cutId, e.locator, e.plaintextSha256)
  }

  /** The record encryption makes of this content, apart from that spelling. */
  predicate MadeFor(p: Platform, e: Sealed, key: Bytes, keyId: string, m: Bytes, nonce: Bytes) {
    && |nonce| == 12
    && e == Seal(p, m, key, keyId, e.cutId, e.locator, nonce).(aadBase64 := e.aadBase64)
  }

  lemma StrictText(text: string, size: nat)
    requires StrictBase64(text, size).Success?
    ensures var bytes := StrictBase64(text, size).value; bytes != [] && |bytes| == size && text == Encode(bytes)
  {
    StrictExact(text, size, StrictBase64(text, size).value);
  }

  lemma OpenedIsMade(p: Platform, e: Sealed, key: Bytes, keyId: string, m: Bytes) returns (nonce: Bytes)
    requires AuthenticLaw(p) && |key| == 32 && Unseal(p, e, key, keyId) == Success(m)
    ensures m != [] && IsUuid(e.cutId) && SafeLocator(e.locator) && AadSpelled(p, e)
    ensures MadeFor(p, e, key, keyId, m, nonce)
  {
    nonce := StrictBase64(e.nonceBase64, 12).value;
    var tag := StrictBase64(e.authTagBase64, 16).value;
    var ciphertext := StrictBase64(e.ciphertextBase64, e.plaintextBytes).value;
    StrictText(e.nonceBase64, 12);
    StrictText(e.authTagBase64, 16);
    StrictText(e.ciphertextBase64, e.plaintextBytes);
    var aad := p.utf8(AadText(e.cutId, e.locator, e.plaintextSha256));
    assert p.decipher(key, nonce, aad, ciphertext, tag) == Some(m);
    assert p.encipher(key, nonce, aad, m) == (ciphertext, tag);
  }

  lemma MadeIsOpened(p: Platform, e: Sealed, key: Bytes, keyId: string, m: Bytes, nonce: Bytes)
    requires HashLaw(p) && CipherLaw(p) && |key| == 32 && m != []
    requires IsUuid(e.cutId) && SafeLocator(e.locator) && AadSpelled(p, e) && MadeFor(p, e, key, keyId, m, nonce)
    ensures Unseal(p, e, key, keyId) == Success(m)
  {
    var aad := p.utf8(AadText(e.cutId, e.locator, p.sha256(m)));
    var sealed := p.encipher(key, nonce, aad, m);
    assert Deciphers(p, key, nonce, aad, m, sealed);
    UnsealRecord(p, key, keyId, e, nonce, sealed);
  }

  /**
   Exactly: a sealed record is opened to a content if and only if it is the record encryption makes of that
   non-empty content for its own cut and place, under this key and key name.
   */
  lemma UnsealExactly(p: Platform, e: Sealed, key: Bytes, keyId: string, m: Bytes)
    requires HashLaw(p) && CipherLaw(p) && AuthenticLaw(p) && |key| == 32
    ensures Unseal(p, e, key, keyId) == Success(m) <==>
      && m != [] && IsUuid(e.cutId) && SafeLocator(e.locator) && AadSpelled(p, e)
      && exists nonce :: MadeFor(p, e, key, keyId, m, nonce)
  {
    if Unseal(p, e, key, keyId) == Success(m) { var nonce := OpenedIsMade(p, e, key, keyId, m); }
    if m != [] && IsUuid(e.cutId) && SafeLocator(e.locator) && AadSpelled(p, e) {
      forall nonce | MadeFor(p, e, key, keyId, m, nonce) ensures Unseal(p, e, key, keyId) == Success(m) {
        MadeIsOpened(p, e, key, keyId, m, nonce);
      }
    }
  }

  /** So a record opens under the name of its own key only, and only to content of its digest and size. */
  lemma OpenedTells(p: Platform, envelope: Bytes, key: Bytes, keyId: string, m: Bytes)
    requires AuthenticLaw(p) && |key| == 32 && Decrypt(p, envelope, key, keyId) == Success(m)
    ensures 1 <= |envelope| <= MAX_R2_ENVELOPE_BYTES && p.parseSealed(p.toText(envelope)).Some?
    ensures var e := p.parseSealed(p.toText(envelope)).value;
      && e.keyId == keyId && e.version == "backup-aes-256-gcm-envelope/v1" && e.algorithm == "AES-256-GCM"
      && e.plaintextSha256 == p.sha256(m) && e.plaintextBytes == |m|
  {
    var nonce := OpenedIsMade(p, p.parseSealed(p.toText(envelope)).value, key, keyId, m);
  }
}

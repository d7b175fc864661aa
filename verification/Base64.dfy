/**
 Base64 as in section 4 of RFC 4648, and the strict reading of it by `strictBase64` in
 apps/api/maintenance/backup/direct-provider.ts.
 */
module Base64 {
  import opened Outcomes
  import opened Octets

  type Sextet = i: int | 0 <= i < 64

  function Symbol(i: Sextet): (c: char)
    ensures IsSymbol(c) && Value(c) == i
  {
    if i < 26 then 'A' + i as char
    else if i < 52 then 'a' + (i - 26) as char
    else if i < 62 then '0' + (i - 52) as char
    else if i == 62 then '+' else '/'
  }

  function High(a: Byte): Sextet { a as int / 4 }

  function Upper(a: Byte, b: Byte): Sextet { a as int % 4 * 16 + b as int / 16 }

  function Lower(b: Byte, c: Byte): Sextet { b as int % 16 * 4 + c as int / 64 }

  function Low(c: Byte): Sextet { c as int % 64 }

  predicate IsSymbol(c: char) { 'A' <= c <= 'Z' || 'a' <= c <= 'z' || '0' <= c <= '9' || c == '+' || c == '/' }

  function Value(c: char): (v: int)
    ensures 0 <= v < 64
  {
    if 'A' <= c <= 'Z' then (c - 'A') as int
    else if 'a' <= c <= 'z' then (c - 'a') as int + 26
    else if '0' <= c <= '9' then (c - '0') as int + 52
    else if c == '+' then 62 else 63
  }

  function One(a: Byte): string { [Symbol(High(a)), Symbol(Upper(a, 0)), '=', '='] }

  function Two(a: Byte, b: Byte): string { [Symbol(High(a)), Symbol(Upper(a, b)), Symbol(Lower(b, 0)), '='] }

  function Three(a: Byte, b: Byte, c: Byte): string {
    [Symbol(High(a)), Symbol(Upper(a, b)), Symbol(Lower(b, c)), Symbol(Low(c))]
  }

  function Encode(bytes: Bytes): (text: string)
    ensures |text| == 4 * ((|bytes| + 2) / 3)
  {
    if |bytes| == 0 then ""
    else if |bytes| == 1 then One(bytes[0])
    else if |bytes| == 2 then Two(bytes[0], bytes[1])
    else Three(bytes[0], bytes[1], bytes[2]) + Encode(bytes[3..])
  }

  function First(t: string): Byte requires |t| == 4 { (Value(t[0]) * 4 + Value(t[1]) / 16) as Byte }

  function Second(t: string): Byte requires |t| == 4 { (Value(t[1]) % 16 * 16 + Value(t[2]) / 4) as Byte }

  function Third(t: string): Byte requires |t| == 4 { (Value(t[2]) % 4 * 64 + Value(t[3])) as Byte }

  /** Groups of four; trailing text shorter than a group never re-encodes to itself, so it is dropped here. */
  function Decode(text: string): Bytes {
    if |text| < 4 then []
    else
      var quad := text[..4];
      (if quad[2] == '=' then [First(quad)]
       else if quad[3] == '=' then [First(quad), Second(quad)]
       else [First(quad), Second(quad), Third(quad)]) + Decode(text[4..])
  }

  /** The accepted shape: symbols, then at most two padding characters. */
  predicate Pattern(text: string) {
    exists pads :: 0 <= pads <= 2 && Padded(text, pads)
  }

  predicate Padded(text: string, pads: nat) {
    && pads < |text|
    && (forall i :: 0 <= i < |text| - pads ==> IsSymbol(text[i]))
    && (forall i :: |text| - pads <= i < |text| ==> text[i] == '=')
  }

  function StrictBase64(text: string, size: nat): Result<Bytes> {
    if text == "" || |text| > (size + 2) / 3 * 4 || !Pattern(text) then Failure("BACKUP_ENVELOPE_INVALID")
    else
      var decoded := Decode(text);
      if |decoded| != size || Encode(decoded) != text then Failure("BACKUP_ENVELOPE_INVALID") else Success(decoded)
  }

  lemma OneBack(a: Byte)
    ensures First(One(a)) == a
  {
  }

  lemma TwoBack(a: Byte, b: Byte)
    ensures First(Two(a, b)) == a && Second(Two(a, b)) == b
  {
  }

  lemma ThreeBack(a: Byte, b: Byte, c: Byte)
    ensures First(Three(a, b, c)) == a && Second(Three(a, b, c)) == b && Third(Three(a, b, c)) == c
  {
    assert Lower(b, c) / 4 == b as int % 16 && Lower(b, c) % 4 == c as int / 64;
  }

  lemma DecodeThree(a: Byte, b: Byte, c: Byte, rest: string)
    ensures Decode(Three(a, b, c) + rest) == [a, b, c] + Decode(rest)
  {
    var text := Three(a, b, c) + rest;
    ThreeBack(a, b, c);
    assert text[..4] == Three(a, b, c) && text[4..] == rest;
  }

  lemma {:induction false} DecodeEncode(bytes: Bytes)
    ensures Decode(Encode(bytes)) == bytes
  {
    if |bytes| == 1 {
      OneBack(bytes[0]);
      assert Encode(bytes)[..4] == One(bytes[0]) && Encode(bytes)[4..] == "";
    } else if |bytes| == 2 {
      TwoBack(bytes[0], bytes[1]);
      assert Encode(bytes)[..4] == Two(bytes[0], bytes[1]) && Encode(bytes)[4..] == "";
    } else if |bytes| > 2 {
      DecodeEncode(bytes[3..]);
      DecodeThree(bytes[0], bytes[1], bytes[2], Encode(bytes[3..]));
      assert bytes == [bytes[0], bytes[1], bytes[2]] + bytes[3..];
    }
  }

  function Pads(size: nat): nat { if size % 3 == 0 then 0 else 3 - size % 3 }

  lemma PaddedAfter(quad: string, rest: string, pads: nat)
    requires (forall i :: 0 <= i < |quad| ==> IsSymbol(quad[i])) && Padded(rest, pads)
    ensures Padded(quad + rest, pads)
  {
    var text := quad + rest;
    forall i | 0 <= i < |text| - pads ensures IsSymbol(text[i]) {
      assert text[i] == if i < |quad| then quad[i] else rest[i - |quad|];
    }
    forall i | |text| - pads <= i < |text| ensures text[i] == '=' {
      assert text[i] == rest[i - |quad|];
    }
  }

  lemma {:induction false} EncodePadded(bytes: Bytes)
    requires bytes != []
    ensures Padded(Encode(bytes), Pads(|bytes|))
  {
    if |bytes| > 3 {
      EncodePadded(bytes[3..]);
      assert Pads(|bytes|) == Pads(|bytes[3..]|);
      PaddedAfter(Three(bytes[0], bytes[1], bytes[2]), Encode(bytes[3..]), Pads(|bytes|));
    } else if |bytes| == 3 {
      ShortPadded(bytes);
    }
  }

  lemma ShortPadded(bytes: Bytes)
    requires |bytes| == 3
    ensures Padded(Encode(bytes), 0)
  {
    assert Encode(bytes[3..]) == "";
    assert Encode(bytes) == Three(bytes[0], bytes[1], bytes[2]);
  }

  /** The strict reader accepts exactly the encodings of non-empty byte strings of the expected size. */
  lemma StrictExact(text: string, size: nat, bytes: Bytes)
    ensures StrictBase64(text, size) == Success(bytes) <==> bytes != [] && |bytes| == size && text == Encode(bytes)
  {
    if bytes != [] && |bytes| == size && text == Encode(bytes) {
      DecodeEncode(bytes);
      EncodePadded(bytes);
      assert Pattern(text);
    }
  }
}

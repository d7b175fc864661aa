/**
 The object names of a database cut: distinct, safe, of the right kind, and short enough exactly for
 destination identifiers of at most 123 characters (apps/api/maintenance/backup/direct-provider.ts,
 apps/api/maintenance/backup/cut-manifest.ts).
 */
module CutNames {
  import opened Octets
  import opened Text
  import opened Json
  import opened Envelope
  import opened DatabaseBackup
  import opened DatabaseCapture
  import opened DatabaseCut

  // ---- Part numbers ---------------------------------------------------------------------------

  function Value(digits: string): int {
    if digits == "" then 0 else Value(digits[..|digits| - 1]) * 10 + (digits[|digits| - 1] as int - '0' as int)
  }

  lemma {:induction false} DecimalValue(n: nat)
    ensures Value(Decimal(n)) == n
  {
    if n >= 10 {
      DecimalValue(n / 10);
      var digits := Decimal(n);
      assert digits[..|digits| - 1] == Decimal(n / 10);
    } else {
      assert Decimal(n)[..0] == "";
    }
  }

  lemma {:induction false} ZerosIgnored(zeros: nat, digits: string)
    ensures Value(seq(zeros, _ => '0') + digits) == Value(digits)
  {
    var all := seq(zeros, _ => '0') + digits;
    if digits != "" {
      ZerosIgnored(zeros, digits[..|digits| - 1]);
      assert all[..|all| - 1] == seq(zeros, _ => '0') + digits[..|digits| - 1];
    } else if zeros > 0 {
      ZerosIgnored(zeros - 1, digits);
      assert all[..|all| - 1] == seq(zeros - 1, _ => '0') + digits;
    }
  }

  lemma PaddedValue(n: nat)
    ensures Value(Padded(n)) == n
  {
    DecimalValue(n);
    if |Decimal(n)| < 6 { ZerosIgnored(6 - |Decimal(n)|, Decimal(n)); }
  }

  lemma LocatorsDiffer(prefix: string, i: nat, j: nat)
    requires i != j
    ensures PartLocator(prefix, i) != PartLocator(prefix, j)
  {
    PaddedValue(i);
    PaddedValue(j);
    var a, b := PartLocator(prefix, i), PartLocator(prefix, j);
    var head := |prefix + "part-"|;
    assert a[head..|a| - 14] == Padded(i) && b[head..|b| - 14] == Padded(j);
  }

  lemma {:induction false} DecimalDigits(n: nat)
    ensures forall i :: 0 <= i < |Decimal(n)| ==> IsDigit(Decimal(n)[i])
  {
    if n >= 10 { DecimalDigits(n / 10); }
  }

  lemma PaddedSix(n: nat)
    requires n < 10_000
    ensures |Padded(n)| == 6 && forall i :: 0 <= i < 6 ==> IsDigit(Padded(n)[i])
  {
    DecimalDigits(n);
    FourDigits(n);
  }

  // ---- Locators -------------------------------------------------------------------------------

  predicate IsDestinationChar(c: char) { IsLower(c) || IsDigit(c) || c == '.' || c == '_' || c == '-' }

  /** The destination identifiers the manifest admits. */
  predicate DestinationAdmitted(d: string) {
    && 1 <= |d| <= 128 && (IsLower(d[0]) || IsDigit(d[0])) && forall i :: 0 <= i < |d| ==> IsDestinationChar(d[i])
  }

  predicate SafeSegments(s: string) {
    forall segment :: segment in Segments(s) ==> segment != "" && segment != "." && segment != ".."
  }

  lemma SegmentsSplit(a: string, b: string)
    requires '/' !in a
    ensures Segments(a + "/" + b) == [a] + Segments(b)
  {
    var s := a + "/" + b;
    assert s[|a|] == '/' && forall i :: 0 <= i < |a| ==> s[i] == a[i];
    FirstSlash(s, |a|);
    assert s[..|a|] == a && s[|a| + 1..] == b;
  }

  lemma FirstSlash(s: string, at: nat)
    requires at < |s| && s[at] == '/' && forall i :: 0 <= i < at ==> s[i] != '/'
    ensures IndexOf(s, '/') == at
  {
    var i := IndexOf(s, '/');
    assert i < |s|;
  }

  lemma SafeCons(a: string, b: string)
    requires '/' !in a && a != "" && a != "." && a != ".." && SafeSegments(b)
    ensures SafeSegments(a + "/" + b)
  {
    SegmentsSplit(a, b);
  }

  lemma SafeLeaf(a: string)
    requires '/' !in a && |a| > 2
    ensures SafeSegments(a)
  {
    assert IndexOf(a, '/') == |a|;
  }

  predicate NameChars(s: string) { forall i :: 0 <= i < |s| ==> IsPlain(s[i]) && s[i] != '/' }

  lemma {:induction false} PlainAppend(a: string, b: string)
    requires Plain(a) && Plain(b)
    ensures Plain(a + b)
  {
  }

  function LocatorOf(d: string, cutId: string, leaf: string): string {
    d + "/" + (cutId + "/" + ("database" + "/" + leaf))
  }

  /** Such a locator is safe and takes one byte a character. */
  lemma LocatorIsSafe(d: string, cutId: string, leaf: string)
    requires DestinationAdmitted(d) && IsUuid(cutId) && NameChars(leaf) && 2 < |leaf| <= 100
    ensures SafeLocator(LocatorOf(d, cutId, leaf)) && EscapedBytes(LocatorOf(d, cutId, leaf)) == |d| + 47 + |leaf|
  {
    var locator := LocatorOf(d, cutId, leaf);
    SafeLeaf(leaf);
    SafeCons("database", leaf);
    SafeCons(cutId, "database" + "/" + leaf);
    assert d[0] != '.';
    SafeCons(d, cutId + "/" + ("database" + "/" + leaf));
    LocatorPlain(d, cutId, leaf);
    PlainBytes(locator);
    PlainUnits(locator);
    assert forall i :: 0 <= i < |locator| ==> IsPlain(locator[i]);
    assert locator[0] == d[0];
  }

  lemma LocatorPlain(d: string, cutId: string, leaf: string)
    requires DestinationAdmitted(d) && IsUuid(cutId) && NameChars(leaf)
    ensures Plain(LocatorOf(d, cutId, leaf)) && |LocatorOf(d, cutId, leaf)| == |d| + 47 + |leaf|
  {
    PlainAppend("database" + "/", leaf);
    PlainAppend(cutId + "/", "database" + "/" + leaf);
    PlainAppend(d + "/", cutId + "/" + ("database" + "/" + leaf));
  }

  function PartLeaf(k: nat): string { "part-" + Padded(k) + ".envelope.json" }

  lemma PartNameShape(d: string, cutId: string, k: nat)
    ensures PartLocator(Prefix(d, cutId), k) == LocatorOf(d, cutId, PartLeaf(k))
    ensures IndexLocator(Prefix(d, cutId)) == LocatorOf(d, cutId, INDEX_NAME)
  {
    assert PartLocator(Prefix(d, cutId), k) == LocatorOf(d, cutId, PartLeaf(k));
    assert IndexLocator(Prefix(d, cutId)) == LocatorOf(d, cutId, INDEX_NAME);
  }

  lemma PartLeafShape(k: nat)
    requires k < MAX_PARTS
    ensures |PartLeaf(k)| == 25 && NameChars(PartLeaf(k)) && PartLeaf(k)[..5] == "part-"
    ensures PartLeaf(k)[11..] == ".envelope.json"
    ensures forall i :: 5 <= i < 11 ==> IsDigit(PartLeaf(k)[i])
  {
    PaddedSix(k);
    assert forall i :: 5 <= i < 11 ==> PartLeaf(k)[i] == Padded(k)[i - 5];
    assert NameChars("part-") && NameChars(".envelope.json");
  }

  lemma Tail(a: string, b: string)
    ensures EndsWith(a + b, b) && forall c :: EndsWith(b, c) ==> EndsWith(a + b, c)
  {
    forall c | EndsWith(b, c) ensures EndsWith(a + b, c) {
      assert (a + b)[|a + b| - |c|..] == b[|b| - |c|..];
    }
  }

  lemma LocatorTail(d: string, cutId: string, leaf: string)
    ensures LocatorOf(d, cutId, leaf) == (d + "/" + cutId) + ("/database/" + leaf)
  {
  }

  lemma PartTail(head: string, leaf: string)
    requires |leaf| == 25 && leaf[..5] == "part-" && leaf[11..] == ".envelope.json"
    requires forall i :: 5 <= i < 11 ==> IsDigit(leaf[i])
    ensures IsPartName(head + ("/database/" + leaf))
    ensures EndsWith(head + ("/database/" + leaf), ".envelope.json")
  {
    var tail := "/database/" + leaf;
    var key := head + tail;
    assert key[|key| - 35..] == tail;
    assert tail[..15] == "/database/" + leaf[..5] && tail[21..] == leaf[11..];
    assert forall i :: 15 <= i < 21 ==> tail[i] == leaf[i - 10];
    assert EndsWith(tail, ".envelope.json");
    Tail(head, tail);
  }

  lemma PartIsNotIndex(head: string, leaf: string)
    requires |leaf| == 25
    ensures !EndsWith(head + ("/database/" + leaf), "/database/index.envelope.json")
  {
    var key := head + ("/database/" + leaf);
    assert key[|key| - 29] == ("/database/" + leaf)[6] == 'a';
  }

  lemma PartCap(d: string, cutId: string, k: nat)
    requires k < MAX_PARTS && SafeLocator(LocatorOf(d, cutId, PartLeaf(k)))
    ensures MaximumEnvelope(LocatorOf(d, cutId, PartLeaf(k))).Some?
    ensures MAX_PART_ENVELOPE_BYTES <= MaximumEnvelope(LocatorOf(d, cutId, PartLeaf(k))).value
  {
    PartLeafShape(k);
    LocatorTail(d, cutId, PartLeaf(k));
    PartTail(d + "/" + cutId, PartLeaf(k));
    PartIsNotIndex(d + "/" + cutId, PartLeaf(k));
    CapMonotone(CHUNK_BYTES, MAX_SOURCE_OBJECT_BYTES);
  }

  lemma IndexSuffix(d: string, cutId: string, leaf: string)
    requires leaf == INDEX_NAME
    ensures EndsWith(LocatorOf(d, cutId, leaf), "/database/index.envelope.json")
    ensures EndsWith(LocatorOf(d, cutId, leaf), ".envelope.json")
  {
    LocatorTail(d, cutId, leaf);
    var tail := "/database/" + leaf;
    assert tail == "/database/index.envelope.json";
    assert EndsWith(tail, ".envelope.json");
    Tail(d + "/" + cutId, tail);
  }

  lemma IndexCap(d: string, cutId: string)
    requires SafeLocator(LocatorOf(d, cutId, INDEX_NAME))
    ensures MaximumEnvelope(LocatorOf(d, cutId, INDEX_NAME)).Some?
    ensures MAX_INDEX_ENVELOPE_BYTES <= MaximumEnvelope(LocatorOf(d, cutId, INDEX_NAME)).value
  {
    var locator := LocatorOf(d, cutId, INDEX_NAME);
    IndexSuffix(d, cutId, INDEX_NAME);
    CapMonotone(MAX_INDEX_BYTES, MAX_SOURCE_OBJECT_BYTES);
  }

  /** Exactly the destination identifiers of at most 123 characters give usable part names. */
  lemma DestinationLimit(d: string, cutId: string, k: nat)
    requires DestinationAdmitted(d) && IsUuid(cutId) && k < MAX_PARTS
    ensures Admissible(PartLocator(Prefix(d, cutId), k), CHUNK_BYTES) <==> |d| <= 123
    ensures |d| <= 123 ==> Admissible(IndexLocator(Prefix(d, cutId)), MAX_INDEX_BYTES)
  {
    PartNameShape(d, cutId, k);
    PartLeafShape(k);
    LocatorIsSafe(d, cutId, PartLeaf(k));
    PartCap(d, cutId, k);
    IndexIsSafe(d, cutId);
    IndexCap(d, cutId);
  }

  lemma IndexIsSafe(d: string, cutId: string)
    requires DestinationAdmitted(d) && IsUuid(cutId)
    ensures SafeLocator(LocatorOf(d, cutId, INDEX_NAME)) && EscapedBytes(LocatorOf(d, cutId, INDEX_NAME)) == |d| + 66
  {
    LocatorIsSafe(d, cutId, INDEX_NAME);
  }

  lemma IndexApart(prefix: string, k: nat)
    ensures PartLocator(prefix, k) != IndexLocator(prefix)
  {
    assert PartLocator(prefix, k)[|prefix|] == 'p' && IndexLocator(prefix)[|prefix|] == 'i';
  }

  predicate Fresh(prefix: string, objects: Objects) { forall k :: k in objects ==> !StartsWith(k, prefix) }

  lemma NamesAreClear(d: string, cutId: string, cut: Cut, objects: Objects)
    requires DestinationAdmitted(d) && |d| <= 123 && IsUuid(cutId) && Fresh(Prefix(d, cutId), objects)
    requires forall k :: cut.locator(k) == PartLocator(Prefix(d, cutId), k)
    ensures NamesClear(cut, objects)
  {
    var prefix := Prefix(d, cutId);
    forall k | 0 <= k < MAX_PARTS ensures Admissible(cut.locator(k), CHUNK_BYTES) && cut.locator(k) !in objects {
      DestinationLimit(d, cutId, k);
      assert StartsWith(PartLocator(prefix, k), prefix);
    }
    forall j, k | 0 <= j < k ensures cut.locator(j) != cut.locator(k) { LocatorsDiffer(prefix, j, k); }
  }

  lemma IndexIsClear(d: string, cutId: string, cut: Cut, objects: Objects)
    requires DestinationAdmitted(d) && |d| <= 123 && IsUuid(cutId) && Fresh(Prefix(d, cutId), objects)
    requires forall k :: cut.locator(k) == PartLocator(Prefix(d, cutId), k)
    ensures IndexClear(cut, IndexLocator(Prefix(d, cutId)), objects)
  {
    var prefix := Prefix(d, cutId);
    DestinationLimit(d, cutId, 0);
    assert StartsWith(IndexLocator(prefix), prefix);
    forall k | 0 <= k < MAX_PARTS ensures cut.locator(k) != IndexLocator(prefix) { IndexApart(prefix, k); }
  }

  /** So under a fresh prefix, with new nonces and no truncated read, nothing stands in the way of a capture. */
  lemma ShortDestinationIsClear(d: string, cut: Cut, objects: Objects, used: set<Bytes>)
    requires DestinationAdmitted(d) && |d| <= 123 && InputsClear(cut, used) && Fresh(Prefix(d, cut.cutId), objects)
    requires forall k :: cut.locator(k) == PartLocator(Prefix(d, cut.cutId), k)
    ensures AllClear(cut, IndexLocator(Prefix(d, cut.cutId)), objects, used)
  {
    NamesAreClear(d, cut.cutId, cut, objects);
    IndexIsClear(d, cut.cutId, cut, objects);
  }

  /** And under a longer identifier, although it is admitted, no capture ever returns. */
  lemma LongDestinationNeverCaptured(
      v: Vault, d: string, cut: Cut, objects: Objects, dump: Bytes, parts: seq<Part>, chunks: seq<Bytes>)
    requires DestinationAdmitted(d) && forall k :: cut.locator(k) == PartLocator(Prefix(d, cut.cutId), k)
    requires Captured(v, cut, IndexLocator(Prefix(d, cut.cutId)), objects, dump, parts, chunks)
    ensures |d| <= 123
  {
    assert PartStored(v, cut, objects, 0, parts[0], chunks[0]);
    PartNameShape(d, cut.cutId, 0);
    PartLeafShape(0);
    LocatorIsSafe(d, cut.cutId, PartLeaf(0));
  }
}

/**
 JSON text of flat objects and its size in UTF-8, as far as the backup formats need it
 (`canonicalJson` in apps/api/maintenance/shared/strict-json.ts). Text is a sequence of Unicode
 scalar values.
 */
module Json {
  import opened Sums
  import opened Text

  function Utf8Size(c: char): nat {
    if c as int < 0x80 then 1 else if c as int < 0x800 then 2 else if c as int < 0x10000 then 3 else 4
  }

  function Utf8Length(s: string): nat { if s == "" then 0 else Utf8Size(s[0]) + Utf8Length(s[1..]) }

  /** Length in UTF-16 code units, which is what `length` of a JavaScript string means. */
  function Units(s: string): nat { if s == "" then 0 else (if s[0] as int < 0x10000 then 1 else 2) + Units(s[1..]) }

  function HexDigit(i: nat): char
    requires i < 16
  {
    if i < 10 then '0' + i as char else 'a' + (i - 10) as char
  }

  function EscapeChar(c: char): string {
    var n := c as int;
    if n == 34 then "\\\"" else if n == 92 then "\\\\" else if n == 8 then "\\b" else if n == 9 then "\\t"
    else if n == 10 then "\\n" else if n == 12 then "\\f" else if n == 13 then "\\r"
    else if n < 32 then "\\u00" + [HexDigit(n / 16), HexDigit(n % 16)]
    else [c]
  }

  function Escape(s: string): string { if s == "" then "" else EscapeChar(s[0]) + Escape(s[1..]) }

  function CharBytes(c: char): nat {
    var n := c as int;
    if n in {34, 92, 8, 9, 10, 12, 13} then 2 else if n < 32 then 6 else Utf8Size(c)
  }

  /** The bytes a text takes inside a JSON string. */
  function EscapedBytes(s: string): nat { if s == "" then 0 else CharBytes(s[0]) + EscapedBytes(s[1..]) }

  predicate IsPlain(c: char) { 32 <= c as int < 128 && c as int != 34 && c as int != 92 }

  /** Text that JSON leaves as it is and UTF-8 stores in one byte a character. */
  predicate Plain(s: string) { forall i :: 0 <= i < |s| ==> IsPlain(s[i]) }

  datatype Member =
    | Text(name: string, value: string)
    | Number(name: string, number: nat)
    | Array(name: string, items: seq<string>)

  function MemberText(m: Member): string {
    match m
    case Text(name, value) => "\"" + name + "\":\"" + (Escape(value) + "\"")
    case Number(name, number) => "\"" + name + "\":" + Decimal(number)
    case Array(name, items) => "\"" + name + "\":" + ("[" + (Join(items) + "]"))
  }

  /** Texts separated by commas. */
  function Join(items: seq<string>): string {
    if |items| == 0 then "" else if |items| == 1 then items[0] else items[0] + ("," + Join(items[1..]))
  }

  function MembersText(ms: seq<Member>): string {
    if |ms| == 0 then "" else if |ms| == 1 then MemberText(ms[0]) else MemberText(ms[0]) + ("," + MembersText(ms[1..]))
  }

  function ObjectText(ms: seq<Member>): string { "{" + (MembersText(ms) + "}") }

  function MemberBytes(m: Member): nat {
    match m
    case Text(name, value) => |name| + 5 + EscapedBytes(value)
    case Number(name, number) => |name| + 3 + |Decimal(number)|
    case Array(name, items) => |name| + 5 + Utf8Length(Join(items))
  }

  function MembersBytes(ms: seq<Member>): nat { if ms == [] then 0 else MemberBytes(ms[0]) + MembersBytes(ms[1..]) }

  predicate PlainNames(ms: seq<Member>) { forall i :: 0 <= i < |ms| ==> Plain(ms[i].name) }

  // ---- Sizes ----------------------------------------------------------------------------------

  lemma {:induction false} Utf8Append(a: string, b: string)
    ensures Utf8Length(a + b) == Utf8Length(a) + Utf8Length(b)
  {
    if a == "" {
      assert a + b == b;
    } else {
      assert (a + b)[1..] == a[1..] + b;
      Utf8Append(a[1..], b);
    }
  }

  predicate IsAscii(s: string) { forall i :: 0 <= i < |s| ==> s[i] as int < 128 }

  lemma {:induction false} AsciiBytes(s: string)
    requires IsAscii(s)
    ensures Utf8Length(s) == |s|
  {
    if s != "" { AsciiBytes(s[1..]); }
  }

  lemma {:induction false} PlainBytes(s: string)
    requires Plain(s)
    ensures EscapedBytes(s) == |s|
  {
    if s != "" { PlainBytes(s[1..]); }
  }

  lemma {:induction false} EscapedBound(s: string)
    ensures Units(s) <= EscapedBytes(s) <= 6 * Units(s)
  {
    if s != "" { EscapedBound(s[1..]); }
  }

  lemma CharEscaped(c: char)
    ensures Utf8Length(EscapeChar(c)) == CharBytes(c)
  {
    if c as int < 128 {
      AsciiBytes(EscapeChar(c));
    } else {
      assert Utf8Length([c]) == Utf8Size(c) + Utf8Length("");
    }
  }

  lemma {:induction false} EscapedSize(s: string)
    ensures Utf8Length(Escape(s)) == EscapedBytes(s)
  {
    if s != "" {
      EscapedSize(s[1..]);
      CharEscaped(s[0]);
      Utf8Append(EscapeChar(s[0]), Escape(s[1..]));
    }
  }

  lemma {:induction false} DecimalAscii(n: nat)
    ensures IsAscii(Decimal(n)) && |Decimal(n)| >= 1
    ensures n < 10 ==> |Decimal(n)| == 1
    ensures n >= 10 ==> |Decimal(n)| == |Decimal(n / 10)| + 1
  {
    if n >= 10 { DecimalAscii(n / 10); }
  }

  /** A number below a hundred million has at most eight digits. */
  lemma EightDigits(n: nat)
    requires n < 100_000_000
    ensures |Decimal(n)| <= 8
  {
    DecimalAscii(n);
    DecimalAscii(n / 10);
    DecimalAscii(n / 100);
    DecimalAscii(n / 1000);
    FourDigits(n / 10_000);
    assert n / 10 / 10 == n / 100 && n / 100 / 10 == n / 1000 && n / 1000 / 10 == n / 10_000;
  }

  lemma TenDigits(n: nat)
    requires n < 10_000_000_000
    ensures |Decimal(n)| <= 10
  {
    DecimalAscii(n);
    DecimalAscii(n / 10);
    EightDigits(n / 100);
    assert n / 10 / 10 == n / 100;
  }

  lemma FourDigits(n: nat)
    requires n < 10_000
    ensures |Decimal(n)| <= 4
  {
    DecimalAscii(n);
    DecimalAscii(n / 10);
    DecimalAscii(n / 100);
    DecimalAscii(n / 1000);
  }

  lemma MemberSize(m: Member)
    requires Plain(m.name)
    ensures Utf8Length(MemberText(m)) == MemberBytes(m)
  {
    match m
    case Text(name, value) =>
      var head := "\"" + name + "\":\"";
      AsciiBytes(head);
      AsciiBytes("\"");
      EscapedSize(value);
      Utf8Append(Escape(value), "\"");
      Utf8Append(head, Escape(value) + "\"");
    case Number(name, number) =>
      DecimalAscii(number);
      AsciiBytes(MemberText(m));
    case Array(name, items) =>
      var head := "\"" + name + "\":";
      AsciiBytes(head);
      AsciiBytes("[");
      AsciiBytes("]");
      Utf8Append(Join(items), "]");
      Utf8Append("[", Join(items) + "]");
      Utf8Append(head, "[" + (Join(items) + "]"));
  }

  /** Items of bounded size give a list of bounded size. */
  lemma {:induction false} JoinBound(items: seq<string>, bound: nat)
    requires forall i :: 0 <= i < |items| ==> Utf8Length(items[i]) <= bound
    ensures Utf8Length(Join(items)) <= |items| * (bound + 1)
  {
    if |items| > 1 {
      var rest := items[1..];
      assert forall i :: 0 <= i < |rest| ==> rest[i] == items[i + 1];
      JoinBound(rest, bound);
      JoinStep(items);
      MulDistributes(|rest|, 1, bound + 1);
    }
  }

  lemma JoinStep(items: seq<string>)
    requires |items| > 1
    ensures Utf8Length(Join(items)) == Utf8Length(items[0]) + 1 + Utf8Length(Join(items[1..]))
  {
    AsciiBytes(",");
    Utf8Append(",", Join(items[1..]));
    Utf8Append(items[0], "," + Join(items[1..]));
  }

  lemma {:induction false} MembersSize(ms: seq<Member>)
    requires ms != [] && PlainNames(ms)
    ensures Utf8Length(MembersText(ms)) == MembersBytes(ms) + |ms| - 1
  {
    MemberSize(ms[0]);
    if |ms| > 1 {
      MembersSize(ms[1..]);
      AsciiBytes(",");
      Utf8Append(",", MembersText(ms[1..]));
      Utf8Append(MemberText(ms[0]), "," + MembersText(ms[1..]));
    } else {
      assert ms[1..] == [];
    }
  }

  /** The size of an object's text: braces, commas and members. */
  lemma ObjectSize(ms: seq<Member>)
    requires ms != [] && PlainNames(ms)
    ensures Utf8Length(ObjectText(ms)) == MembersBytes(ms) + |ms| + 1
  {
    MembersSize(ms);
    AsciiBytes("{");
    AsciiBytes("}");
    Utf8Append(MembersText(ms), "}");
    Utf8Append("{", MembersText(ms) + "}");
  }

  lemma {:induction false} MembersAppend(a: seq<Member>, b: seq<Member>)
    ensures MembersBytes(a + b) == MembersBytes(a) + MembersBytes(b)
  {
    if a == [] {
      assert a + b == b;
    } else {
      assert (a + b)[1..] == a[1..] + b;
      MembersAppend(a[1..], b);
    }
  }

  lemma FourMembers(a: Member, b: Member, c: Member, d: Member)
    ensures MembersBytes([a, b, c, d]) == MemberBytes(a) + MemberBytes(b) + MemberBytes(c) + MemberBytes(d)
  {
    MembersAppend([a], [b, c, d]);
    assert [a] + [b, c, d] == [a, b, c, d] && [a][1..] == [];
    ThreeMembers(b, c, d);
  }

  lemma ThreeMembers(a: Member, b: Member, c: Member)
    ensures MembersBytes([a, b, c]) == MemberBytes(a) + MemberBytes(b) + MemberBytes(c)
  {
    MembersAppend([a], [b, c]);
    MembersAppend([b], [c]);
    assert [a] + [b, c] == [a, b, c] && [b] + [c] == [b, c];
    assert [a][1..] == [] && [b][1..] == [] && [c][1..] == [];
  }

  lemma NamesAppend(a: seq<Member>, b: seq<Member>)
    requires PlainNames(a) && PlainNames(b)
    ensures PlainNames(a + b)
  {
  }
}

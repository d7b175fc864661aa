/** Character classes and splitting, as the regular expressions and string methods of the source use them. */
module Text {
  import opened Outcomes

  predicate IsLower(c: char) { 'a' <= c <= 'z' }

  predicate IsDigit(c: char) { '0' <= c <= '9' }

  predicate IsHex(c: char) { IsDigit(c) || 'a' <= c <= 'f' }

  predicate IsHash(s: string) { |s| == 64 && forall i :: 0 <= i < 64 ==> IsHex(s[i]) }

  predicate IsAnyCaseHex(c: char) { IsHex(c) || 'A' <= c <= 'F' }

  predicate IsUuid(s: string) {
    && |s| == 36
    && (forall i :: 0 <= i < 36 ==> if i in {8, 13, 18, 23} then s[i] == '-' else IsAnyCaseHex(s[i]))
    && '1' <= s[14] <= '8' && s[19] in "89abAB"
  }

  predicate Truthy(s: Option<string>) { s.Some? && s.value != "" }

  predicate StartsWith(s: string, prefix: string) { prefix <= s }

  /** Index of the first occurrence of `c`, or the length when there is none. */
  function IndexOf(s: string, c: char): (i: nat)
    ensures i <= |s| && (i < |s| ==> s[i] == c) && forall j :: 0 <= j < i ==> s[j] != c
  {
    if s == "" || s[0] == c then 0 else IndexOf(s[1..], c) + 1
  }

  function Segments(s: string): (r: seq<string>)
    ensures r != []
  {
    var slash := IndexOf(s, '/');
    if slash == |s| then [s] else [s[..slash]] + Segments(s[slash + 1..])
  }

  function Decimal(n: nat): string {
    if n < 10 then ['0' + n as char] else Decimal(n / 10) + ['0' + (n % 10) as char]
  }

  predicate EndsWith(s: string, suffix: string) { |suffix| <= |s| && s[|s| - |suffix|..] == suffix }

  function LowerChar(c: char): char { if 'A' <= c <= 'Z' then c - 'A' + 'a' else c }

  /** ASCII lower case; the database writes identifiers that way. */
  function Lower(s: string): string { seq(|s|, i requires 0 <= i < |s| => LowerChar(s[i])) }
}

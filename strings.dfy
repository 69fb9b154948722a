/** String primitives of the JavaScript and Python runtimes that the viewer and
    the publisher call: `startsWith`, `indexOf`, `includes`, `replace(/\s/g, '')`,
    ASCII lower-casing and the decimal rendering of a non-negative integer. */
module Strings {

  datatype Option<T> = None | Some(value: T)

  /** `pat` occurs in `s` starting at offset `at`. */
  predicate OccursAt(s: string, pat: string, at: int) {
    0 <= at && at + |pat| <= |s| && s[at..at + |pat|] == pat
  }

  /** JavaScript `s.startsWith(p)`. */
  predicate StartsWith(s: string, p: string) {
    |p| <= |s| && s[..|p|] == p
  }

  predicate Contains(s: string, pat: string) {
    exists at | 0 <= at <= |s| - |pat| :: OccursAt(s, pat, at)
  }

  predicate IsSuffix(r: string, s: string) {
    |r| <= |s| && s[|s| - |r|..] == r
  }

  /** The first occurrence of `pat` in `s` at or after `from`, or -1. */
  function IndexFrom(s: string, pat: string, from: nat): (r: int)
    requires from <= |s|
    ensures r == -1 || (from <= r && OccursAt(s, pat, r))
    ensures r == -1 ==> forall at :: from <= at ==> !OccursAt(s, pat, at)
    ensures r != -1 ==> forall at :: from <= at < r ==> !OccursAt(s, pat, at)
    decreases |s| - from
  {
    if from + |pat| > |s| then -1
    else if s[from..from + |pat|] == pat then from
    else IndexFrom(s, pat, from + 1)
  }

  /** JavaScript `s.indexOf(pat)`: the least offset of an occurrence, or -1. */
  function IndexOf(s: string, pat: string): (r: int)
    ensures r == -1 <==> !Contains(s, pat)
    ensures r != -1 ==> OccursAt(s, pat, r) && forall at :: 0 <= at < r ==> !OccursAt(s, pat, at)
  {
    IndexFrom(s, pat, 0)
  }

  lemma StartsWithIsIndexZero(s: string, p: string)
    ensures StartsWith(s, p) <==> IndexOf(s, p) == 0
  {
    if StartsWith(s, p) {
      assert OccursAt(s, p, 0);
    }
  }

  /** An occurrence is found where nothing earlier starts with the pattern's
      first character. */
  lemma IndexOfByHead(s: string, pat: string, k: nat)
    requires |pat| > 0 && OccursAt(s, pat, k)
    requires forall at :: 0 <= at < k ==> s[at] != pat[0]
    ensures IndexOf(s, pat) == k
  {
    forall at | 0 <= at < k ensures !OccursAt(s, pat, at) {
      if at + |pat| <= |s| {
        assert s[at..at + |pat|][0] == s[at];
      }
    }
  }

  lemma NotContainsChar(s: string, c: char)
    requires forall i :: 0 <= i < |s| ==> s[i] != c
    ensures !Contains(s, [c])
  {
    forall at | 0 <= at <= |s| - 1 ensures !OccursAt(s, [c], at) {
      assert s[at..at + 1][0] == s[at];
    }
  }

  /** The characters the ECMAScript `\s` class matches: WhiteSpace
      (TAB, VT, FF, SP, NBSP, ZWNBSP and the Zs category) and LineTerminator
      (LF, CR, LS, PS). */
  predicate IsJsWhitespace(c: char) {
    c == '\t' || c == '\n' || c == '\U{B}' || c == '\U{C}' || c == '\r' || c == ' ' ||
    c == '\U{A0}' || c == '\U{1680}' || ('\U{2000}' <= c <= '\U{200A}') ||
    c == '\U{2028}' || c == '\U{2029}' || c == '\U{202F}' || c == '\U{205F}' ||
    c == '\U{3000}' || c == '\U{FEFF}'
  }

  predicate NoWhitespace(s: string) {
    forall i :: 0 <= i < |s| ==> !IsJsWhitespace(s[i])
  }

  /** JavaScript `s.replace(/\s/g, '')`. */
  function RemoveWhitespace(s: string): (r: string)
    ensures NoWhitespace(r)
    ensures |r| <= |s|
    ensures NoWhitespace(s) ==> r == s
    ensures forall i :: 0 <= i < |r| ==> r[i] in s
    ensures forall i :: 0 <= i < |s| && !IsJsWhitespace(s[i]) ==> s[i] in r
  {
    if s == [] then []
    else if IsJsWhitespace(s[0]) then RemoveWhitespace(s[1..])
    else [s[0]] + RemoveWhitespace(s[1..])
  }

  /** The removal works character by character, in order: a `\s` character
      goes, any other stays, and removing from a concatenation is removing
      from each part. Together these fix the result for every text. */
  lemma RemoveWhitespaceOne(c: char)
    ensures RemoveWhitespace([c]) == if IsJsWhitespace(c) then [] else [c]
  {
    assert [c][1..] == [];
  }

  lemma {:induction false} RemoveWhitespaceAppend(a: string, b: string)
    ensures RemoveWhitespace(a + b) == RemoveWhitespace(a) + RemoveWhitespace(b)
    decreases |a|
  {
    if a == [] {
      assert a + b == b;
    } else {
      assert (a + b)[0] == a[0];
      assert (a + b)[1..] == a[1..] + b;
      RemoveWhitespaceAppend(a[1..], b);
    }
  }

  /** A suffix of a whitespace-free string is whitespace-free. */
  lemma SuffixKeepsNoWhitespace(r: string, s: string)
    requires IsSuffix(r, s) && NoWhitespace(s)
    ensures NoWhitespace(r)
  {
    forall i | 0 <= i < |r| ensures !IsJsWhitespace(r[i]) {
      assert r[i] == s[|s| - |r| + i];
    }
  }

  lemma SuffixTransitive(a: string, b: string, c: string)
    requires IsSuffix(a, b) && IsSuffix(b, c)
    ensures IsSuffix(a, c)
  {
    assert c[|c| - |a|..] == c[|c| - |b|..][|b| - |a|..];
  }

  /** Python `str.lower()` restricted to ASCII letters. */
  function ToLowerChar(c: char): (r: char)
    ensures 'A' <= c <= 'Z' ==> 'a' <= r <= 'z' && r as int - c as int == 32
    ensures !('A' <= c <= 'Z') ==> r == c
  {
    if 'A' <= c <= 'Z' then (c as int + 32) as char else c
  }

  function ToLower(s: string): (r: string)
    ensures |r| == |s|
    ensures forall i :: 0 <= i < |s| ==> r[i] == ToLowerChar(s[i])
  {
    seq(|s|, i requires 0 <= i < |s| => ToLowerChar(s[i]))
  }

  predicate IsDigit(c: char) {
    '0' <= c <= '9'
  }

  /** The decimal numeral of `n` without leading zeros, as JavaScript's
      template literal renders a non-negative integer such as `Date.now()`. */
  function Decimal(n: nat): (r: string)
    ensures |r| > 0
    ensures forall i :: 0 <= i < |r| ==> IsDigit(r[i])
    ensures |r| > 1 ==> r[0] != '0'
    decreases n
  {
    if n < 10 then [('0' as int + n) as char]
    else Decimal(n / 10) + [('0' as int + n % 10) as char]
  }

  /** The value of a string of decimal digits. */
  function DecimalValue(s: string): nat
    requires forall i :: 0 <= i < |s| ==> IsDigit(s[i])
  {
    if s == [] then 0
    else assert IsDigit(s[|s| - 1]); 10 * DecimalValue(s[..|s| - 1]) + (s[|s| - 1] as int - '0' as int)
  }

  /** Reading back the numeral gives the number: `Decimal` is injective. */
  lemma {:induction false} DecimalRoundTrip(n: nat)
    ensures DecimalValue(Decimal(n)) == n
    decreases n
  {
    if n >= 10 {
      var d := Decimal(n);
      assert d[..|d| - 1] == Decimal(n / 10);
      DecimalRoundTrip(n / 10);
    }
  }

  lemma DecimalInjective(n: nat, m: nat)
    requires Decimal(n) == Decimal(m)
    ensures n == m
  {
    DecimalRoundTrip(n);
    DecimalRoundTrip(m);
  }
}

/**
 * Character classes and string helpers with the meaning they have in the Java
 * standard library, restricted to ASCII where the library consults Unicode tables.
 */
module Text {

  /** `\s` in a java.util.regex pattern: space, tab, newline, vertical tab, form feed, carriage return. */
  predicate IsRegexSpace(c: char) {
    c == ' ' || c == '\t' || c == '\n' || c == '\U{000B}' || c == '\U{000C}' || c == '\r'
  }

  /** `Character.isWhitespace` on ASCII: the regex spaces plus the four separator controls U+001C..U+001F. */
  predicate IsWhitespace(c: char) {
    IsRegexSpace(c) || ('\U{001C}' <= c <= '\U{001F}')
  }

  /** What `String.trim` strips: every character at or below U+0020. */
  predicate IsTrimmable(c: char) {
    c <= ' '
  }

  /** A line terminator for `.` and `$` in java.util.regex (default flags). */
  predicate IsLineTerminator(c: char) {
    c == '\n' || c == '\r' || c == '\U{0085}' || c == '\U{2028}' || c == '\U{2029}'
  }

  predicate IsQuote(c: char) { c == '\'' || c == '"' }

  predicate IsAsciiLetter(c: char) { ('a' <= c <= 'z') || ('A' <= c <= 'Z') }

  function LowerChar(c: char): char {
    if 'A' <= c <= 'Z' then (c as int + 32) as char else c
  }

  function UpperChar(c: char): char {
    if 'a' <= c <= 'z' then (c as int - 32) as char else c
  }

  /** `String.toLowerCase` on ASCII. */
  function Lower(s: string): (r: string)
    ensures |r| == |s|
    ensures forall i :: 0 <= i < |s| ==> r[i] == LowerChar(s[i])
  {
    seq(|s|, i requires 0 <= i < |s| => LowerChar(s[i]))
  }

  /** `String.toUpperCase` on ASCII. */
  function Upper(s: string): (r: string)
    ensures |r| == |s|
    ensures forall i :: 0 <= i < |s| ==> r[i] == UpperChar(s[i])
  {
    seq(|s|, i requires 0 <= i < |s| => UpperChar(s[i]))
  }

  predicate StartsWith(s: string, p: string) {
    |p| <= |s| && s[..|p|] == p
  }

  predicate EndsWith(s: string, p: string) {
    |p| <= |s| && s[|s| - |p|..] == p
  }

  /** `t` occurs in `s` at index `i`. */
  predicate OccursAt(s: string, t: string, i: int) {
    0 <= i && i + |t| <= |s| && s[i..i + |t|] == t
  }

  /** `String.indexOf(t, from)`: the first occurrence at or after `from`, or -1. */
  function IndexOfFrom(s: string, t: string, from: nat): (r: int)
    ensures r == -1 || (from <= r && OccursAt(s, t, r))
    ensures r == -1 ==> forall k :: from <= k ==> !OccursAt(s, t, k)
    ensures r != -1 ==> forall k :: from <= k < r ==> !OccursAt(s, t, k)
    decreases |s| - from
  {
    if from + |t| > |s| then -1
    else if s[from..from + |t|] == t then from
    else IndexOfFrom(s, t, from + 1)
  }

  function IndexOf(s: string, t: string): (r: int)
    ensures r == -1 || OccursAt(s, t, r)
    ensures r == -1 <==> forall k :: !OccursAt(s, t, k)
    ensures r != -1 ==> forall k :: 0 <= k < r ==> !OccursAt(s, t, k)
  {
    IndexOfFrom(s, t, 0)
  }

  /** `String.contains`. */
  predicate Contains(s: string, t: string) {
    IndexOf(s, t) >= 0
  }

  lemma ContainsIff(s: string, t: string)
    ensures Contains(s, t) <==> exists k :: OccursAt(s, t, k)
  {
  }

  /** Index of the first character at or after `i` that `p` rejects (or |s|): the end of a maximal run. */
  function RunEnd(s: string, i: nat, p: char -> bool): (j: nat)
    requires i <= |s|
    ensures i <= j <= |s|
    ensures forall k :: i <= k < j ==> p(s[k])
    ensures j < |s| ==> !p(s[j])
    decreases |s| - i
  {
    if i == |s| || !p(s[i]) then i else RunEnd(s, i + 1, p)
  }

  /** The run from `i` ends at `e` when everything before `e` passes and `e` is the end or fails. */
  lemma {:induction false} RunEndAt(s: string, i: nat, p: char -> bool, e: nat)
    requires i <= e <= |s|
    requires forall k :: i <= k < e ==> p(s[k])
    requires e < |s| ==> !p(s[e])
    ensures RunEnd(s, i, p) == e
    decreases e - i
  {
    if i < e {
      RunEndAt(s, i + 1, p, e);
    }
  }

  /** Number of leading characters that `String.trim` removes. */
  function LeadingTrimmable(s: string): (n: nat)
    ensures n <= |s|
    ensures forall k :: 0 <= k < n ==> IsTrimmable(s[k])
    ensures n < |s| ==> !IsTrimmable(s[n])
  {
    RunEnd(s, 0, IsTrimmable)
  }

  /** Number of trailing characters that `String.trim` removes. */
  function TrailingTrimmable(s: string): (n: nat)
    ensures n <= |s|
    ensures forall k :: |s| - n <= k < |s| ==> IsTrimmable(s[k])
    ensures n < |s| ==> !IsTrimmable(s[|s| - n - 1])
  {
    if |s| == 0 || !IsTrimmable(s[|s| - 1]) then 0
    else 1 + TrailingTrimmable(s[..|s| - 1])
  }

  /** `String.trim`: the longest infix with no character at or below U+0020 at either end. */
  function Trim(s: string): (r: string)
    ensures |r| <= |s| - LeadingTrimmable(s)
    ensures r == s[LeadingTrimmable(s)..LeadingTrimmable(s) + |r|]
    ensures forall k :: LeadingTrimmable(s) + |r| <= k < |s| ==> IsTrimmable(s[k])
    ensures |r| > 0 ==> !IsTrimmable(r[0]) && !IsTrimmable(r[|r| - 1])
  {
    var a := LeadingTrimmable(s);
    var rest := s[a..];
    var b := TrailingTrimmable(rest);
    assert forall k :: a + |rest| - b <= k < |s| ==> s[k] == rest[k - a];
    rest[..|rest| - b]
  }

  /** Text that starts and ends with characters above U+0020 is its own trim. */
  lemma TrimKeeps(s: string)
    requires |s| > 0 ==> !IsTrimmable(s[0]) && !IsTrimmable(s[|s| - 1])
    ensures Trim(s) == s
  {
    if |s| > 0 {
      assert LeadingTrimmable(s) == 0;
      assert TrailingTrimmable(s) == 0;
    }
  }

  /** The trim is the infix from the first to the last character above U+0020. */
  lemma TrimIs(s: string, a: nat, e: nat)
    requires a < e <= |s|
    requires forall k :: 0 <= k < a ==> IsTrimmable(s[k])
    requires !IsTrimmable(s[a]) && !IsTrimmable(s[e - 1])
    requires forall k :: e <= k < |s| ==> IsTrimmable(s[k])
    ensures Trim(s) == s[a..e]
  {
    RunEndAt(s, 0, IsTrimmable, a);
  }

  /**
   * Trimming text whose middle part sits between two characters above
   * U+0020 trims only the outer parts.
   */
  lemma TrimJoin(p: string, q: string, r: string)
    requires |p| > 0 && !IsTrimmable(p[|p| - 1])
    requires |r| > 0 && !IsTrimmable(r[0])
    ensures Trim(p + q + r) == Trim(p) + q + Trim(r)
  {
    var a := LeadingTrimmable(p);
    TrimIs(p, a, |p|);
    TrimFromStart(r);
    TrimJoinAt(p, q, r, a, Trim(r));
  }

  /** Text that starts above U+0020 is trimmed at its end only. */
  lemma TrimFromStart(r: string)
    requires |r| > 0 && !IsTrimmable(r[0])
    ensures var t := Trim(r);
      0 < |t| && t == r[..|t|] && !IsTrimmable(t[|t| - 1])
      && forall k :: |t| <= k < |r| ==> IsTrimmable(r[k])
  {
    assert LeadingTrimmable(r) == 0;
  }

  lemma TrimJoinAt(p: string, q: string, r: string, a: nat, t: string)
    requires a < |p| && !IsTrimmable(p[a]) && !IsTrimmable(p[|p| - 1])
    requires forall k :: 0 <= k < a ==> IsTrimmable(p[k])
    requires 0 < |t| <= |r| && t == r[..|t|] && !IsTrimmable(t[|t| - 1])
    requires forall k :: |t| <= k < |r| ==> IsTrimmable(r[k])
    ensures Trim(p + q + r) == p[a..] + q + t
  {
    var s := p + q + r;
    var e := |p| + |q| + |t|;
    assert forall k :: 0 <= k < a ==> IsTrimmable(s[k]) by {
      forall k | 0 <= k < a ensures IsTrimmable(s[k]) {
        assert s[k] == p[k];
      }
    }
    assert forall k :: e <= k < |s| ==> IsTrimmable(s[k]) by {
      forall k | e <= k < |s| ensures IsTrimmable(s[k]) {
        assert s[k] == r[k - |p| - |q|];
      }
    }
    assert s[a] == p[a];
    assert s[e - 1] == t[|t| - 1];
    TrimIs(s, a, e);
    assert s[a..e] == p[a..] + q + t;
  }

  lemma TrimIn(s: string, c: char)
    requires c in Trim(s)
    ensures c in s
  {
    var r := Trim(s);
    var x :| 0 <= x < |r| && r[x] == c;
    assert s[LeadingTrimmable(s) + x] == c;
  }

  /** `s.trim().isEmpty()`. */
  predicate IsBlank(s: string) {
    forall k :: 0 <= k < |s| ==> IsTrimmable(s[k])
  }

  lemma TrimEmptyIffBlank(s: string)
    ensures Trim(s) == "" <==> IsBlank(s)
  {
    var r := Trim(s);
    if r != "" {
      assert s[LeadingTrimmable(s)] == r[0];
    }
  }

  /** `String.join(", ", names)`. */
  function JoinComma(names: seq<string>): string {
    if |names| == 0 then ""
    else if |names| == 1 then names[0]
    else names[0] + ", " + JoinComma(names[1..])
  }
}

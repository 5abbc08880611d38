/**
 * `{{key}}` placeholder substitution (ApiCallService.substituteVariables).
 *
 * The pattern `\{\{([^}]+)\}\}` is modelled by a tokenizer: the text splits into
 * single characters and placeholders, a placeholder being taken wherever the
 * pattern matches when scanning left to right. Substitution replaces each
 * placeholder whose key is a variable by the variable's value, verbatim.
 */
module Substitution {
  import opened Wrappers
  import Text
  import Scan

  /** Where the run of non-'}' characters starting at `i` ends. */
  function KeyEnd(t: string, i: nat): (j: nat)
    requires i <= |t|
    ensures i <= j <= |t|
    ensures forall k :: i <= k < j ==> t[k] != '}'
    ensures j < |t| ==> t[j] == '}'
    decreases |t| - i
  {
    if i == |t| || t[i] == '}' then i else KeyEnd(t, i + 1)
  }

  /** The key captured when `\{\{([^}]+)\}\}` matches at the start of `t`. */
  function PlaceholderKey(t: string): (r: Option<string>)
    ensures r.Some? ==> |r.value| > 0 && '}' !in r.value
    ensures r.Some? ==> |r.value| + 4 <= |t| && t[..|r.value| + 4] == "{{" + r.value + "}}"
  {
    if |t| >= 2 && t[0] == '{' && t[1] == '{' then
      var j := KeyEnd(t, 2);
      if j > 2 && j + 1 < |t| && t[j + 1] == '}' then
        assert forall c :: c in t[2..j] ==> c != '}' by {
          forall c | c in t[2..j] ensures c != '}' {
            var x :| 0 <= x < |t[2..j]| && t[2..j][x] == c;
            assert t[2 + x] == c;
          }
        }
        Some(t[2..j])
      else None
    else None
  }

  /** The pattern matches exactly the well-formed placeholders: a non-empty key without '}'. */
  lemma PlaceholderKeyExact(k: string, rest: string)
    requires |k| > 0 && '}' !in k
    ensures PlaceholderKey("{{" + k + "}}" + rest) == Some(k)
  {
    var t := "{{" + k + "}}" + rest;
    forall x | 2 <= x < |k| + 2 ensures t[x] != '}' {
      assert t[x] == k[x - 2];
    }
    var j := KeyEnd(t, 2);
    assert t[|k| + 2] == '}';
    assert j == |k| + 2;
    assert t[2..j] == k;
  }

  datatype Token = Char(c: char) | Placeholder(key: string)

  /** The text as Matcher.find sees it: leftmost placeholder matches, all other characters literal. */
  function Tokenize(s: string): seq<Token>
    decreases |s|
  {
    if |s| == 0 then []
    else
      match PlaceholderKey(s)
      case Some(k) => [Placeholder(k)] + Tokenize(s[|k| + 4..])
      case None => [Char(s[0])] + Tokenize(s[1..])
  }

  /** The original text of a token. */
  function Raw(t: Token): string {
    match t
    case Char(c) => [c]
    case Placeholder(k) => "{{" + k + "}}"
  }

  /** What a token becomes: a known key's value, verbatim; anything else unchanged. */
  function Replacement(t: Token, vars: map<string, string>): string {
    if t.Placeholder? && t.key in vars then vars[t.key] else Raw(t)
  }

  function Unparse(ts: seq<Token>): string {
    if |ts| == 0 then "" else Raw(ts[0]) + Unparse(ts[1..])
  }

  function Expand(ts: seq<Token>, vars: map<string, string>): string {
    if |ts| == 0 then "" else Replacement(ts[0], vars) + Expand(ts[1..], vars)
  }

  /** The substitution the pattern loop computes: every token replaced independently. */
  function Resolve(s: string, vars: map<string, string>): string {
    Expand(Tokenize(s), vars)
  }

  /** The names the pattern captures in `s`, left to right. */
  function PlaceholderNames(s: string): seq<string> {
    NamesOf(Tokenize(s))
  }

  function NamesOf(ts: seq<Token>): seq<string> {
    if |ts| == 0 then []
    else (if ts[0].Placeholder? then [ts[0].key] else []) + NamesOf(ts[1..])
  }

  function Chars(x: string): (ts: seq<Token>)
    ensures |ts| == |x|
    ensures forall i :: 0 <= i < |x| ==> ts[i] == Char(x[i])
  {
    seq(|x|, i requires 0 <= i < |x| => Char(x[i]))
  }

  lemma {:induction false} ExpandAppend(a: seq<Token>, b: seq<Token>, vars: map<string, string>)
    ensures Expand(a + b, vars) == Expand(a, vars) + Expand(b, vars)
    decreases |a|
  {
    if |a| > 0 {
      assert (a + b)[0] == a[0];
      assert (a + b)[1..] == a[1..] + b;
      ExpandAppend(a[1..], b, vars);
      var x := Replacement(a[0], vars);
      assert Expand(a + b, vars) == x + Expand(a[1..] + b, vars);
      assert Expand(a, vars) == x + Expand(a[1..], vars);
      Associate(x, Expand(a[1..], vars), Expand(b, vars));
    } else {
      assert a + b == b;
    }
  }

  lemma {:induction false} NamesAppend(a: seq<Token>, b: seq<Token>)
    ensures NamesOf(a + b) == NamesOf(a) + NamesOf(b)
    decreases |a|
  {
    if |a| > 0 {
      assert (a + b)[0] == a[0];
      assert (a + b)[1..] == a[1..] + b;
      NamesAppend(a[1..], b);
    } else {
      assert a + b == b;
    }
  }

  lemma {:induction false} ExpandChars(x: string, vars: map<string, string>)
    ensures Expand(Chars(x), vars) == x
    ensures NamesOf(Chars(x)) == []
    decreases |x|
  {
    if |x| > 0 {
      assert Chars(x)[1..] == Chars(x[1..]);
      ExpandChars(x[1..], vars);
    }
  }

  /** The pattern does not match at index `k` of `s`. */
  predicate NoMatchAt(s: string, k: nat) {
    k > |s| || PlaceholderKey(s[k..]).None?
  }

  /** Characters where the pattern does not match are copied one by one. */
  lemma {:induction false} TokenizeSkip(s: string, from: nat, i: nat)
    requires from <= i <= |s|
    requires forall k :: from <= k < i ==> NoMatchAt(s, k)
    ensures Tokenize(s[from..]) == Chars(s[from..i]) + Tokenize(s[i..])
    decreases i - from
  {
    if from < i {
      TokenizeCharAt(s, from);
      TokenizeSkip(s, from + 1, i);
      assert Chars(s[from..i]) == [Char(s[from])] + Chars(s[from + 1..i]);
      ConsJoin(Tokenize(s[from..]), Char(s[from]), Tokenize(s[from + 1..]), Chars(s[from + 1..i]), Tokenize(s[i..]));
    }
  }

  /** Where the pattern does not match, the character is a token of its own. */
  lemma TokenizeCharAt(s: string, from: nat)
    requires from < |s| && NoMatchAt(s, from)
    ensures Tokenize(s[from..]) == [Char(s[from])] + Tokenize(s[from + 1..])
  {
    assert s[from..][1..] == s[from + 1..];
  }

  lemma ConsJoin(a: seq<Token>, t: Token, b: seq<Token>, x: seq<Token>, c: seq<Token>)
    requires a == [t] + b && b == x + c
    ensures a == ([t] + x) + c
  {
  }

  /** `find()` from index `from`: the leftmost placeholder at or after it, with its key. */
  function FindPlaceholder(s: string, from: nat): (r: Option<(nat, string)>)
    ensures r.Some? ==> from <= r.value.0 <= |s| && PlaceholderKey(s[r.value.0..]) == Some(r.value.1)
    ensures r.Some? ==> forall k :: from <= k < r.value.0 ==> NoMatchAt(s, k)
    ensures r.None? ==> forall k :: from <= k <= |s| ==> NoMatchAt(s, k)
  {
    var at := (i: nat) => if i <= |s| then PlaceholderKey(s[i..]) else None;
    var r := Scan.FindFrom(|s|, from, at);
    assert forall k: nat :: k <= |s| ==> at(k) == PlaceholderKey(s[k..]);
    r
  }

  /** Where the pattern matches, the placeholder is one token and scanning resumes after it. */
  lemma TokenizeAtPlaceholder(s: string, start: nat, key: string, end: nat)
    requires start <= |s| && PlaceholderKey(s[start..]) == Some(key)
    requires end == start + |key| + 4
    ensures end <= |s|
    ensures s[start..start + |key| + 4] == "{{" + key + "}}"
    ensures Tokenize(s[start..]) == [Placeholder(key)] + Tokenize(s[end..])
  {
    var t := s[start..];
    assert t[|key| + 4..] == s[end..];
    assert s[start..start + |key| + 4] == t[..|key| + 4];
  }

  /** Expanding literal characters, then one placeholder, then the rest. */
  lemma ExpandSplit(x: string, key: string, tail: seq<Token>, vars: map<string, string>)
    ensures Expand(Chars(x) + ([Placeholder(key)] + tail), vars)
      == x + (Replacement(Placeholder(key), vars) + Expand(tail, vars))
    ensures NamesOf(Chars(x) + ([Placeholder(key)] + tail)) == [key] + NamesOf(tail)
  {
    var ph := [Placeholder(key)];
    ExpandAppend(Chars(x), ph + tail, vars);
    ExpandChars(x, vars);
    ExpandAppend(ph, tail, vars);
    assert Expand(ph, vars) == Replacement(Placeholder(key), vars);
    NamesAppend(Chars(x), ph + tail);
    NamesAppend(ph, tail);
    assert NamesOf(ph) == [key];
  }

  /** The tokens of the text from `from` when its leftmost placeholder sits at `start`. */
  lemma TokenizeFound(s: string, from: nat, start: nat, key: string, end: nat)
    requires from <= |s| && FindPlaceholder(s, from) == Some((start, key))
    requires end == start + |key| + 4
    ensures end <= |s|
    ensures s[start..start + |key| + 4] == "{{" + key + "}}"
    ensures Tokenize(s[from..]) == Chars(s[from..start]) + ([Placeholder(key)] + Tokenize(s[end..]))
  {
    TokenizeSkip(s, from, start);
    TokenizeAtPlaceholder(s, start, key, end);
  }

  /** What appendReplacement appends: the text since `from`, then the placeholder's value or the placeholder. */
  function Appended(s: string, vars: map<string, string>, from: nat, start: nat, key: string): string
    requires from <= start && start + |key| + 4 <= |s|
  {
    s[from..start] + (if key in vars then vars[key] else s[start..start + |key| + 4])
  }

  /** One step of the find/appendReplacement loop, in terms of the reference substitution. */
  lemma ResolveStep(s: string, from: nat, start: nat, key: string, vars: map<string, string>, end: nat)
    requires from <= |s| && FindPlaceholder(s, from) == Some((start, key))
    requires end == start + |key| + 4
    ensures from <= start && from < end <= |s|
    ensures Resolve(s[from..], vars) == Appended(s, vars, from, start, key) + Resolve(s[end..], vars)
    ensures PlaceholderNames(s[from..]) == [key] + PlaceholderNames(s[end..])
  {
    TokenizeFound(s, from, start, key, end);
    ExpandSplit(s[from..start], key, Tokenize(s[end..]), vars);
    Associate(s[from..start], if key in vars then vars[key] else s[start..start + |key| + 4], Resolve(s[end..], vars));
  }

  /** Past the last placeholder the rest of the text is copied unchanged (appendTail). */
  lemma ResolveTail(s: string, from: nat, vars: map<string, string>)
    requires from <= |s| && FindPlaceholder(s, from).None?
    ensures Resolve(s[from..], vars) == s[from..]
    ensures PlaceholderNames(s[from..]) == []
  {
    TokenizeSkip(s, from, |s|);
    assert Tokenize(s[|s|..]) == [];
    assert Chars(s[from..|s|]) + [] == Chars(s[from..]);
    ExpandChars(s[from..], vars);
  }

  /**
   * The find / appendReplacement / appendTail loop of substituteVariables on
   * non-null arguments.
   */
  method SubstituteScan(s: string, vars: map<string, string>) returns (r: string)
    ensures r == Resolve(s, vars)
  {
    r := "";
    var appendPos := 0;
    var found := FindPlaceholder(s, 0);
    assert s[0..] == s;
    while found.Some?
      invariant appendPos <= |s|
      invariant found == FindPlaceholder(s, appendPos)
      invariant r + Resolve(s[appendPos..], vars) == Resolve(s, vars)
      decreases |s| - appendPos
    {
      r, appendPos := AppendReplacement(s, vars, r, appendPos, found.value.0, found.value.1);
      found := FindPlaceholder(s, appendPos);
    }
    ResolveTail(s, appendPos, vars);
    r := r + s[appendPos..];
  }

  /**
   * Matcher.appendReplacement: the text since the last match, then the
   * placeholder's value (or the placeholder itself for an unknown key).
   */
  method AppendReplacement(s: string, vars: map<string, string>, r: string, from: nat, start: nat, key: string)
    returns (r': string, end: nat)
    requires from <= |s| && FindPlaceholder(s, from) == Some((start, key))
    requires r + Resolve(s[from..], vars) == Resolve(s, vars)
    ensures from < end <= |s|
    ensures r' + Resolve(s[end..], vars) == Resolve(s, vars)
  {
    end := start + |key| + 4;
    ScanStep(s, vars, r, from, start, key, end);
    r' := r + Appended(s, vars, from, start, key);
  }

  /** The loop invariant survives one appendReplacement. */
  lemma ScanStep(s: string, vars: map<string, string>, r: string, from: nat, start: nat, key: string, end: nat)
    requires from <= |s| && FindPlaceholder(s, from) == Some((start, key))
    requires r + Resolve(s[from..], vars) == Resolve(s, vars)
    requires end == start + |key| + 4
    ensures from <= start && from < end <= |s|
    ensures r + Appended(s, vars, from, start, key) + Resolve(s[end..], vars) == Resolve(s, vars)
  {
    ResolveStep(s, from, start, key, vars, end);
    Regroup(r, Resolve(s[from..], vars), Appended(s, vars, from, start, key), Resolve(s[end..], vars), Resolve(s, vars));
  }

  /** `r + x == total` with `x == a + b` gives `r + a + b == total`. */
  lemma Regroup(r: string, x: string, a: string, b: string, total: string)
    requires r + x == total && x == a + b
    ensures r + a + b == total
  {
    Associate(r, a, b);
  }

  lemma Associate(a: string, b: string, c: string)
    ensures a + b + c == a + (b + c)
  {
  }

  /** substituteVariables: null text or a null variable map is returned as it is. */
  method SubstituteVariables(input: Option<string>, vars: Option<map<string, string>>) returns (r: Option<string>)
    ensures input.None? || vars.None? ==> r == input
    ensures input.Some? && vars.Some? ==> r == Some(Resolve(input.value, vars.value))
  {
    if input.None? || vars.None? {
      return input;
    }
    var s := SubstituteScan(input.value, vars.value);
    return Some(s);
  }

  lemma {:induction false} TokenizeUnparse(s: string)
    ensures Unparse(Tokenize(s)) == s
    decreases |s|
  {
    if |s| > 0 {
      match PlaceholderKey(s)
      case Some(k) =>
        var n := |k| + 4;
        TokenizePlaceholderHead(s, k, n);
        TokenizeUnparse(s[n..]);
        UnparseStep(s, Placeholder(k), n, Tokenize(s), Tokenize(s[n..]));
      case None =>
        TokenizeCharHead(s);
        TokenizeUnparse(s[1..]);
        UnparseStep(s, Char(s[0]), 1, Tokenize(s), Tokenize(s[1..]));
    }
  }

  lemma TokenizePlaceholderHead(s: string, k: string, n: nat)
    requires PlaceholderKey(s) == Some(k) && n == |k| + 4
    ensures n <= |s| && Raw(Placeholder(k)) == s[..n]
    ensures Tokenize(s) == [Placeholder(k)] + Tokenize(s[n..])
  {
  }

  lemma TokenizeCharHead(s: string)
    requires |s| > 0 && PlaceholderKey(s).None?
    ensures Raw(Char(s[0])) == s[..1]
    ensures Tokenize(s) == [Char(s[0])] + Tokenize(s[1..])
  {
  }

  /** A token list whose head spells the first `n` characters and whose tail spells the rest spells `s`. */
  lemma UnparseStep(s: string, t: Token, n: nat, ts: seq<Token>, tail: seq<Token>)
    requires n <= |s| && Raw(t) == s[..n]
    requires ts == [t] + tail && Unparse(tail) == s[n..]
    ensures Unparse(ts) == s
  {
    assert ts[1..] == tail;
    assert s == s[..n] + s[n..];
  }

  lemma {:induction false} ExpandUnknown(ts: seq<Token>, vars: map<string, string>)
    requires forall i :: 0 <= i < |ts| && ts[i].Placeholder? ==> ts[i].key !in vars
    ensures Expand(ts, vars) == Unparse(ts)
    decreases |ts|
  {
    if |ts| > 0 {
      ExpandUnknown(ts[1..], vars);
    }
  }

  /** Every captured name is non-empty. */
  lemma {:induction false} NamesNonEmpty(s: string)
    ensures forall i :: 0 <= i < |PlaceholderNames(s)| ==> |PlaceholderNames(s)[i]| > 0
    decreases |s|
  {
    if |s| > 0 {
      match PlaceholderKey(s)
      case Some(k) =>
        assert Tokenize(s) == [Placeholder(k)] + Tokenize(s[|k| + 4..]);
        NamesNonEmpty(s[|k| + 4..]);
        NamesAppend([Placeholder(k)], Tokenize(s[|k| + 4..]));
        assert NamesOf([Placeholder(k)]) == [k];
        assert PlaceholderNames(s) == [k] + PlaceholderNames(s[|k| + 4..]);
      case None =>
        assert Tokenize(s) == [Char(s[0])] + Tokenize(s[1..]);
        NamesNonEmpty(s[1..]);
        NamesAppend([Char(s[0])], Tokenize(s[1..]));
        assert NamesOf([Char(s[0])]) == [];
        assert PlaceholderNames(s) == [] + PlaceholderNames(s[1..]) == PlaceholderNames(s[1..]);
    }
  }

  lemma {:induction false} NamesOfMember(ts: seq<Token>, i: nat)
    requires i < |ts| && ts[i].Placeholder?
    ensures ts[i].key in NamesOf(ts)
    decreases i
  {
    if i > 0 {
      NamesOfMember(ts[1..], i - 1);
    }
  }

  /** Text outside placeholders is kept: with no captured name bound, substitution is the identity. */
  lemma ResolveIdentity(s: string, vars: map<string, string>)
    requires forall k :: k in PlaceholderNames(s) ==> k !in vars
    ensures Resolve(s, vars) == s
  {
    var ts := Tokenize(s);
    forall i | 0 <= i < |ts| && ts[i].Placeholder? ensures ts[i].key !in vars {
      NamesOfMember(ts, i);
    }
    ExpandUnknown(ts, vars);
    TokenizeUnparse(s);
  }

  /** An empty environment changes nothing. */
  lemma ResolveEmptyEnvironment(s: string)
    ensures Resolve(s, map[]) == s
  {
    ResolveIdentity(s, map[]);
  }

  /** A placeholder at the front becomes its value verbatim; scanning resumes in the input after it, never in the value. */
  lemma ResolveLeadingPlaceholder(k: string, rest: string, vars: map<string, string>)
    requires |k| > 0 && '}' !in k
    ensures Resolve("{{" + k + "}}" + rest, vars)
      == (if k in vars then vars[k] else "{{" + k + "}}") + Resolve(rest, vars)
  {
    var s := "{{" + k + "}}" + rest;
    PlaceholderKeyExact(k, rest);
    assert s[|k| + 4..] == rest;
  }

  /** Text without '{' cannot start a placeholder and is copied through. */
  lemma {:induction false} ResolveLiteralPrefix(x: string, rest: string, vars: map<string, string>)
    requires '{' !in x
    ensures Resolve(x + rest, vars) == x + Resolve(rest, vars)
    decreases |x|
  {
    if |x| > 0 {
      var s := x + rest;
      assert s[0] == x[0] && s[0] != '{';
      assert s[1..] == x[1..] + rest;
      ResolveLiteralPrefix(x[1..], rest, vars);
      assert Tokenize(s) == [Char(x[0])] + Tokenize(s[1..]);
      Associate([x[0]], x[1..], Resolve(rest, vars));
      assert [x[0]] + x[1..] == x;
    } else {
      assert x + rest == rest;
    }
  }

  /** `"Bearer {{token}}"` becomes `"Bearer "` followed by the token's value. */
  lemma ExampleBearer(token: string)
    ensures Resolve("Bearer " + "{{token}}", map["token" := token]) == "Bearer " + token
  {
    var vars := map["token" := token];
    assert "{{token}}" == "{{" + "token" + "}}" + "";
    ResolveLiteralPrefix("Bearer ", "{{token}}", vars);
    ResolveLeadingPlaceholder("token", "", vars);
  }

  /** An unknown key keeps its placeholder. */
  lemma ExampleMissing()
    ensures Resolve("{{missing}}", map[]) == "{{missing}}"
  {
    ResolveEmptyEnvironment("{{missing}}");
  }

  /** A value that itself looks like a placeholder is inserted, not substituted again. */
  lemma ExampleNoRescan()
    ensures Resolve("{{a}}", map["a" := "{{b}}", "b" := "x"]) == "{{b}}"
  {
    ResolveLeadingPlaceholder("a", "", map["a" := "{{b}}", "b" := "x"]);
    assert "{{a}}" == "{{" + "a" + "}}" + "";
  }
}

/**
 * CurlParser.parseCurl and its extractors. Each regular expression is
 * written as a scanner for one match position (`...At`), and `find()` is the
 * leftmost position where that scanner succeeds. For every pattern the
 * backtracking was resolved by hand: each quantified class is followed by a
 * character it excludes, so only the maximal run can lead to a match (the one
 * exception, in `JsonPairAt`, is spelled out there).
 */
module Curl {
  import opened Wrappers
  import Text
  import Pairs
  import Scan
  import Model
  import CurlNormalize

  predicate NotQuote(c: char) { !Text.IsQuote(c) }

  /** A character of `[^\\s-]`. */
  predicate IsBareUrlChar(c: char) { !Text.IsRegexSpace(c) && c != '-' }

  /**
   * `['\"]([^'\"]+)['\"]` at `j`: a quote, at least one non-quote character,
   * a quote (of either kind). The capture and the index past the closing quote.
   */
  function QuotedAt(s: string, j: nat): (r: Option<Scan.Match<string>>)
    requires j <= |s|
    ensures r.Some? ==> |r.value.value| > 0 && forall c :: c in r.value.value ==> !Text.IsQuote(c)
    ensures r.Some? ==> (j + |r.value.value| + 2 == r.value.end <= |s|
      && Text.IsQuote(s[j]) && s[j + 1..r.value.end - 1] == r.value.value && Text.IsQuote(s[r.value.end - 1]))
  {
    if j < |s| && Text.IsQuote(s[j]) then
      var k := Text.RunEnd(s, j + 1, NotQuote);
      if k > j + 1 && k < |s| then
        var v := s[j + 1..k];
        assert forall c :: c in v ==> !Text.IsQuote(c) by {
          forall c | c in v ensures !Text.IsQuote(c) {
            var x :| 0 <= x < |v| && v[x] == c;
            assert s[j + 1 + x] == c;
          }
        }
        Some(Scan.Match(v, k + 1))
      else None
    else None
  }

  /** `<flag>\\s+['\"]([^'\"]+)['\"]` at `i`. */
  function FlagQuotedAt(s: string, i: nat, flag: string): (r: Option<Scan.Match<string>>)
    requires i <= |s|
    ensures r.Some? ==> Text.OccursAt(s, flag, i) && |r.value.value| > 0 && i < r.value.end <= |s|
    ensures r.Some? ==> forall c :: c in r.value.value ==> !Text.IsQuote(c)
  {
    if Text.OccursAt(s, flag, i) then
      var j := CurlNormalize.SpaceEnd(s, i + |flag|);
      if j > i + |flag| then QuotedAt(s, j) else None
    else None
  }

  // ----- extractUrl -----

  /** `curl\\s+['\"]([^'\"]+)['\"]|curl\\s+([^\\s-]+)` at `i`: the first alternative, else the second. */
  function UrlAt(s: string, i: nat): (r: Option<string>)
    requires i <= |s|
    ensures r.Some? ==> |r.value| > 0 && Text.OccursAt(s, "curl", i)
  {
    if Text.OccursAt(s, "curl", i) then
      var j := CurlNormalize.SpaceEnd(s, i + 4);
      if j == i + 4 then None
      else
        match QuotedAt(s, j)
        case Some(m) => Some(m.value)
        case None =>
          var k := Text.RunEnd(s, j, IsBareUrlChar);
          if k > j then Some(s[j..k]) else None
    else None
  }

  /** extractUrl: the capture of the leftmost match, or null (None). */
  function ExtractUrl(s: string): (r: Option<string>)
    ensures r.Some? ==> |r.value| > 0
    ensures r.Some? <==> exists i :: 0 <= i <= |s| && UrlAt(s, i).Some?
    ensures forall i :: (0 <= i <= |s| && UrlAt(s, i).Some? && (forall k :: 0 <= k < i ==> UrlAt(s, k).None?)
                         ==> r == UrlAt(s, i))
  {
    var at := (i: nat) => if i <= |s| then UrlAt(s, i) else None;
    var f := Scan.FindFrom(|s|, 0, at);
    assert forall k: nat :: k <= |s| ==> at(k) == UrlAt(s, k);
    forall i | 0 <= i <= |s| && UrlAt(s, i).Some? && (forall k :: 0 <= k < i ==> UrlAt(s, k).None?)
      ensures f == Some((i, UrlAt(s, i).value))
    {
      Scan.FindFromLeftmost(|s|, 0, at, i);
    }
    if f.Some? then Some(f.value.1) else None
  }

  // ----- extractMethod -----

  /** `-X\\s+([A-Z]+)|--request\\s+([A-Z]+)` at `i`, case-insensitively (ASCII). */
  function MethodAt(s: string, i: nat): (r: Option<string>)
    requires i <= |s|
    ensures r.Some? ==> |r.value| > 0 && forall c :: c in r.value ==> Text.IsAsciiLetter(c)
  {
    var flagEnd :=
      if Text.OccursAt(Text.Lower(s), "-x", i) then i + 2
      else if Text.OccursAt(Text.Lower(s), "--request", i) then i + 9
      else i;
    if flagEnd == i then None
    else
      var j := CurlNormalize.SpaceEnd(s, flagEnd);
      var k := Text.RunEnd(s, j, Text.IsAsciiLetter);
      if j > flagEnd && k > j then
        assert forall c :: c in s[j..k] ==> Text.IsAsciiLetter(c) by {
          forall c | c in s[j..k] ensures Text.IsAsciiLetter(c) {
            var x :| 0 <= x < k - j && s[j..k][x] == c;
            assert s[j + x] == c;
          }
        }
        Some(s[j..k])
      else None
  }

  /** extractMethod: an explicit method upper-cased; else POST when data is given; else GET. */
  function ExtractMethod(s: string): (r: string)
    ensures forall i :: (0 <= i <= |s| && MethodAt(s, i).Some? && (forall k :: 0 <= k < i ==> MethodAt(s, k).None?)
                         ==> r == Text.Upper(MethodAt(s, i).value))
    ensures (forall i :: 0 <= i <= |s| ==> MethodAt(s, i).None?) ==>
      r == (if Text.Contains(s, "-d ") || Text.Contains(s, "--data") then "POST" else "GET")
  {
    var at := (i: nat) => if i <= |s| then MethodAt(s, i) else None;
    var f := Scan.FindFrom(|s|, 0, at);
    assert forall k: nat :: k <= |s| ==> at(k) == MethodAt(s, k);
    forall i | 0 <= i <= |s| && MethodAt(s, i).Some? && (forall k :: 0 <= k < i ==> MethodAt(s, k).None?)
      ensures f == Some((i, MethodAt(s, i).value))
    {
      Scan.FindFromLeftmost(|s|, 0, at, i);
    }
    if f.Some? then Text.Upper(f.value.1)
    else if Text.Contains(s, "-d ") || Text.Contains(s, "--data") then "POST"
    else "GET"
  }

  // ----- extractHeaders -----

  /** `-H\\s+['\"]([^'\"]+)['\"]|--header\\s+['\"]([^'\"]+)['\"]` at `i`. */
  function HeaderAt(s: string, i: nat): (r: Option<Scan.Match<string>>)
    requires i <= |s|
    ensures r.Some? ==> i < r.value.end <= |s| && |r.value.value| > 0
    ensures r.Some? ==> forall c :: c in r.value.value ==> !Text.IsQuote(c)
  {
    if Text.OccursAt(s, "-H", i) then FlagQuotedAt(s, i, "-H")
    else FlagQuotedAt(s, i, "--header")
  }

  /** The arguments of all header matches from `from` on, in order (the `while (matcher.find())` loop). */
  function HeaderArgs(s: string, from: nat): (r: seq<string>)
    requires from <= |s|
    ensures forall k :: 0 <= k < |r| ==> |r[k]| > 0 && forall c :: c in r[k] ==> !Text.IsQuote(c)
    decreases |s| - from
  {
    var at := (i: nat) => if i <= |s| then HeaderAt(s, i) else None;
    var f := Scan.FindFrom(|s|, from, at);
    assert forall k: nat :: k <= |s| ==> at(k) == HeaderAt(s, k);
    match f
    case None => []
    case Some((_, m)) => [m.value] + HeaderArgs(s, m.end)
  }

  /**
   * One header argument: split at the first colon when it is not at index 0,
   * both halves trimmed; otherwise the argument is dropped.
   */
  function SplitHeader(h: string): (r: Option<(string, string)>)
    ensures r.Some? <==> Text.IndexOf(h, ":") > 0
    ensures r.Some? ==> var c := Text.IndexOf(h, ":");
      r.value == (Text.Trim(h[..c]), Text.Trim(h[c + 1..])) && ':' !in h[..c]
  {
    var c := Text.IndexOf(h, ":");
    if c > 0 then
      assert ':' !in h[..c] by {
        forall x | 0 <= x < c ensures h[x] != ':' {
          assert !Text.OccursAt(h, ":", x);
          assert h[x..x + 1] == [h[x]];
        }
      }
      Some((Text.Trim(h[..c]), Text.Trim(h[c + 1..])))
    else None
  }

  /** The arguments that split, in order, as their pairs. */
  function HeaderPairs(args: seq<string>): (ps: seq<(string, string)>)
    ensures |ps| <= |args|
    ensures forall p :: p in ps <==> exists i :: 0 <= i < |args| && SplitHeader(args[i]) == Some(p)
  {
    Splits(args, SplitHeader)
  }

  /** The arguments that `split` accepts, in order, as their pairs: the loop body of extractHeaders for any split. */
  function Splits(args: seq<string>, split: string -> Option<(string, string)>): (ps: seq<(string, string)>)
    ensures |ps| <= |args|
    ensures forall p :: p in ps <==> exists i :: 0 <= i < |args| && split(args[i]) == Some(p)
    decreases |args|
  {
    if |args| == 0 then []
    else
      var rest := Splits(args[1..], split);
      assert forall p :: p in rest <==> exists i :: 1 <= i < |args| && split(args[i]) == Some(p) by {
        forall p ensures p in rest <==> exists i :: 1 <= i < |args| && split(args[i]) == Some(p) {
          if p in rest {
            var i :| 0 <= i < |args[1..]| && split(args[1..][i]) == Some(p);
            assert split(args[i + 1]) == Some(p);
          }
        }
      }
      match split(args[0])
      case Some(p) => [p] + rest
      case None => rest
  }

  /** A single argument gives its split, or nothing. */
  lemma SplitsOne(h: string, split: string -> Option<(string, string)>)
    ensures Splits([h], split) == (if split(h).Some? then [split(h).value] else [])
  {
    assert [h][1..] == [];
  }

  lemma SplitsCons(h: string, t: seq<string>, split: string -> Option<(string, string)>)
    ensures Splits([h] + t, split) == Splits([h], split) + Splits(t, split)
  {
    assert ([h] + t)[0] == h && ([h] + t)[1..] == t;
    SplitsOne(h, split);
  }

  /** Pairing keeps the order of the arguments: it splits each argument on its own and concatenates. */
  lemma {:induction false} SplitsAppend(a: seq<string>, b: seq<string>, split: string -> Option<(string, string)>)
    ensures Splits(a + b, split) == Splits(a, split) + Splits(b, split)
    decreases |a|
  {
    if |a| > 0 {
      var h := a[0];
      assert a == [h] + a[1..];
      assert a + b == [h] + (a[1..] + b);
      SplitsCons(h, a[1..] + b, split);
      SplitsCons(h, a[1..], split);
      SplitsAppend(a[1..], b, split);
    } else {
      assert a + b == b;
    }
  }

  /** The pair of argument `i` comes right after the pairs of the arguments before it. */
  lemma SplitsPosition(args: seq<string>, split: string -> Option<(string, string)>, i: nat)
    requires i < |args| && split(args[i]).Some?
    ensures |Splits(args[..i], split)| < |Splits(args, split)|
    ensures Splits(args, split)[|Splits(args[..i], split)|] == split(args[i]).value
  {
    assert args == args[..i] + args[i..];
    SplitsAppend(args[..i], args[i..], split);
    assert args[i..] == [args[i]] + args[i + 1..];
    SplitsCons(args[i], args[i + 1..], split);
    SplitsOne(args[i], split);
  }

  /** Argument `i` splits and no later argument splits to the same key. */
  predicate LastSplitAt(args: seq<string>, split: string -> Option<(string, string)>, i: int) {
    0 <= i < |args| && split(args[i]).Some?
    && forall j :: i < j < |args| && split(args[j]).Some? ==> split(args[j]).value.0 != split(args[i]).value.0
  }

  /** Putting the pairs into a map keeps, for each key, the value of the last argument with that key. */
  lemma {:induction false} LastHeaderWins(args: seq<string>, split: string -> Option<(string, string)>, i: int)
    requires LastSplitAt(args, split, i)
    ensures split(args[i]).value.0 in Pairs.ToMap(Splits(args, split))
    ensures Pairs.ToMap(Splits(args, split))[split(args[i]).value.0] == split(args[i]).value.1
    decreases |args|
  {
    var n := |args| - 1;
    var init := args[..n];
    var x := args[n];
    var p := split(args[i]).value;
    assert args == init + [x];
    SplitsAppend(init, [x], split);
    SplitsOne(x, split);
    if i < n {
      assert LastSplitAt(init, split, i);
      LastHeaderWins(init, split, i);
    }
    Pairs.ToMapLastStep(Splits(init, split), Splits([x], split), p, i == n);
  }

  /**
   * extractHeaders: the split arguments put into a HashMap. Every key comes
   * from an argument, and a later duplicate key overwrites an earlier one.
   */
  function ExtractHeaders(s: string): (r: map<string, string>)
    ensures forall i :: (0 <= i < |HeaderArgs(s, 0)| && SplitHeader(HeaderArgs(s, 0)[i]).Some?
                         ==> SplitHeader(HeaderArgs(s, 0)[i]).value.0 in r)
    ensures forall k :: k in r ==> exists i :: 0 <= i < |HeaderArgs(s, 0)| && SplitHeader(HeaderArgs(s, 0)[i]) == Some((k, r[k]))
    ensures forall i :: LastSplitAt(HeaderArgs(s, 0), SplitHeader, i) ==>
      r[SplitHeader(HeaderArgs(s, 0)[i]).value.0] == SplitHeader(HeaderArgs(s, 0)[i]).value.1
  {
    var args := HeaderArgs(s, 0);
    var ps := HeaderPairs(args);
    var r := Pairs.ToMap(ps);
    forall i | 0 <= i < |args| && SplitHeader(args[i]).Some? ensures SplitHeader(args[i]).value.0 in r {
      var p := SplitHeader(args[i]).value;
      assert p in ps;
      var x :| 0 <= x < |ps| && ps[x] == p;
      assert Pairs.HasKey(ps, p.0);
    }
    forall k | k in r ensures exists i :: 0 <= i < |args| && SplitHeader(args[i]) == Some((k, r[k])) {
      var x :| 0 <= x < |ps| && ps[x] == (k, r[k]);
      assert ps[x] in ps;
    }
    forall i | LastSplitAt(args, SplitHeader, i) ensures r[SplitHeader(args[i]).value.0] == SplitHeader(args[i]).value.1 {
      LastHeaderWins(args, SplitHeader, i);
    }
    r
  }

  // ----- extractBody -----

  /** `-d\\s+['\"]([^'\"]+)['\"]|--data\\s+['\"]([^'\"]+)['\"]` at `i`. */
  function DataAt(s: string, i: nat): (r: Option<string>)
    requires i <= |s|
    ensures r.Some? ==> |r.value| > 0 && forall c :: c in r.value ==> !Text.IsQuote(c)
  {
    var m := if Text.OccursAt(s, "-d", i) then FlagQuotedAt(s, i, "-d") else FlagQuotedAt(s, i, "--data");
    if m.Some? then Some(m.value.value) else None
  }

  /** The first data argument only. */
  function FirstData(s: string): (r: Option<string>)
    ensures r.Some? ==> |r.value| > 0 && forall c :: c in r.value ==> !Text.IsQuote(c)
    ensures r.Some? <==> exists i :: 0 <= i <= |s| && DataAt(s, i).Some?
    ensures forall i :: (0 <= i <= |s| && DataAt(s, i).Some? && (forall k :: 0 <= k < i ==> DataAt(s, k).None?)
                         ==> r == DataAt(s, i))
  {
    var at := (i: nat) => if i <= |s| then DataAt(s, i) else None;
    var f := Scan.FindFrom(|s|, 0, at);
    assert forall k: nat :: k <= |s| ==> at(k) == DataAt(s, k);
    forall i | 0 <= i <= |s| && DataAt(s, i).Some? && (forall k :: 0 <= k < i ==> DataAt(s, k).None?)
      ensures f == Some((i, DataAt(s, i).value))
    {
      Scan.FindFromLeftmost(|s|, 0, at, i);
    }
    if f.Some? then Some(f.value.1) else None
  }

  predicate BraceWrapped(d: string) {
    Text.StartsWith(d, "{") && Text.EndsWith(d, "}")
  }

  /** extractBody: a brace-wrapped argument goes through parseJsonToMap, anything else is stored under "data". */
  function ExtractBody(s: string): (r: map<string, string>)
    ensures FirstData(s).None? ==> r == map[]
    ensures FirstData(s).Some? && !BraceWrapped(FirstData(s).value) ==> r == map["data" := FirstData(s).value]
    ensures FirstData(s).Some? && BraceWrapped(FirstData(s).value) ==> r == map[]
  {
    match FirstData(s)
    case None => map[]
    case Some(d) => if BraceWrapped(d) then ParseJsonToMap(d) else map["data" := d]
  }

  // ----- parseJsonToMap -----

  predicate NotDoubleQuote(c: char) { c != '"' }

  /** A character of `[^,}]`. */
  predicate IsBareValueChar(c: char) { c != ',' && c != '}' }

  /**
   * `\"([^\"]+)\"\\s*:\\s*\"([^\"]+)\"|\"([^\"]+)\"\\s*:\\s*([^,}]+)` at `i`:
   * the key (trimmed), the value (trimmed) and the end of the match.
   * Both alternatives share the key and the colon. The first needs a quoted
   * value. The second takes the maximal `[^,}]` run after the white space;
   * when the white space is followed by `,`, `}` or the end, its greedy `\\s*`
   * gives back one character and the value is that single white-space
   * character, which trims to "".
   */
  function JsonPairAt(s: string, i: nat): (r: Option<Scan.Match<(string, string)>>)
    requires i <= |s|
    ensures r.Some? ==> i < r.value.end <= |s| && s[i] == '"'
  {
    match JsonKeyAt(s, i)
    case None => None
    case Some((key, c, j)) =>
      match JsonQuotedValueAt(s, j)
      case Some(m) => Some(Scan.Match((Text.Trim(key), Text.Trim(m.value)), m.end))
      case None =>
        var e := Text.RunEnd(s, j, IsBareValueChar);
        if e > j then Some(Scan.Match((Text.Trim(key), Text.Trim(s[j..e])), e))
        else if j > c + 1 then Some(Scan.Match((Text.Trim(key), ""), j))
        else None
  }

  /**
   * `"([^"]+)"\s*:\s*` at `i`, shared by both alternatives: the key, the
   * index of the colon and the index after the white space that follows it.
   */
  function JsonKeyAt(s: string, i: nat): (r: Option<(string, nat, nat)>)
    requires i <= |s|
    ensures r.Some? ==> i < |s| && s[i] == '"' && i < r.value.1 < r.value.2 <= |s|
  {
    if i < |s| && s[i] == '"' then
      var k := Text.RunEnd(s, i + 1, NotDoubleQuote);
      if k > i + 1 && k < |s| then
        var c := CurlNormalize.SpaceEnd(s, k + 1);
        if c < |s| && s[c] == ':' then Some((s[i + 1..k], c, CurlNormalize.SpaceEnd(s, c + 1))) else None
      else None
    else None
  }

  /** `"([^"]+)"` at `j`: the first alternative's quoted value. */
  function JsonQuotedValueAt(s: string, j: nat): (r: Option<Scan.Match<string>>)
    requires j <= |s|
    ensures r.Some? ==> j < r.value.end <= |s|
  {
    if j < |s| && s[j] == '"' then
      var m := Text.RunEnd(s, j + 1, NotDoubleQuote);
      if m > j + 1 && m < |s| then Some(Scan.Match(s[j + 1..m], m + 1)) else None
    else None
  }

  /** All pairs the `while (matcher.find())` loop puts, in order. */
  function JsonPairs(s: string, from: nat): (r: seq<(string, string)>)
    requires from <= |s|
    ensures |r| > 0 ==> '"' in s[from..]
    decreases |s| - from
  {
    var at := (i: nat) => if i <= |s| then JsonPairAt(s, i) else None;
    var f := Scan.FindFrom(|s|, from, at);
    assert forall k: nat :: k <= |s| ==> at(k) == JsonPairAt(s, k);
    match f
    case None => []
    case Some((start, m)) =>
      assert s[from..][start - from] == '"';
      [m.value] + JsonPairs(s, m.end)
  }

  /** parseJsonToMap: the braces dropped, the inside trimmed, every pair put (a later key overwriting). */
  function ParseJsonToMap(json: string): (r: map<string, string>)
    requires BraceWrapped(json)
    ensures |r| > 0 ==> '"' in json
  {
    assert json[0] == '{' && json[|json| - 1] == '}';
    var body := json[1..|json| - 1];
    var inner := Text.Trim(body);
    var r := Pairs.ToMap(JsonPairs(inner, 0));
    if '"' in json then r
    else
      assert '"' !in body by {
        forall x | 0 <= x < |body| ensures body[x] != '"' {
          assert body[x] == json[x + 1];
        }
      }
      assert '"' !in inner[0..] by {
        if '"' in inner[0..] {
          assert inner[0..] == inner;
          Text.TrimIn(body, '"');
        }
      }
      r
  }

  // ----- parseCurl -----

  datatype CurlError = EmptyCommand | NoUrl

  function ErrorMessage(e: CurlError): string {
    match e
    case EmptyCommand => "cURL command cannot be empty"
    case NoUrl => "Could not extract URL from cURL command"
  }

  /** parseCurl: a call with URL, method, headers and body taken from the normalised command; no name, no group. */
  function ParseCurl(command: string): (r: Result<Model.ApiCall, CurlError>)
    ensures Text.IsBlank(command) <==> r == Failure(EmptyCommand)
    ensures r == Failure(NoUrl) <==> !Text.IsBlank(command) && ExtractUrl(CurlNormalize.Normalize(command)).None?
    ensures r.Success? ==> var n := CurlNormalize.Normalize(command);
      r.value == Model.ApiCall(None, ExtractUrl(n).value, ExtractMethod(n), ExtractHeaders(n), ExtractBody(n), None)
  {
    if Text.IsBlank(command) then Failure(EmptyCommand)
    else
      var n := CurlNormalize.Normalize(command);
      match ExtractUrl(n)
      case None => Failure(NoUrl)
      case Some(url) => Success(Model.ApiCall(None, url, ExtractMethod(n), ExtractHeaders(n), ExtractBody(n), None))
  }

  // ----- properties -----

  /** A bare URL right after `curl` is taken up to the next white space or `-`. */
  lemma ExtractUrlBare(u: string, rest: string)
    requires |u| > 0 && forall c :: c in u ==> IsBareUrlChar(c) && !Text.IsQuote(c)
    requires |rest| > 0 ==> !IsBareUrlChar(rest[0])
    ensures ExtractUrl("curl " + u + rest) == Some(u)
  {
    var s := "curl " + u + rest;
    assert Text.OccursAt(s, "curl", 0);
    assert forall k :: 5 <= k < 5 + |u| ==> s[k] == u[k - 5];
    assert u[0] in u;
    CurlNormalize.SpaceEndAt(s, 4, 5);
    assert QuotedAt(s, 5).None?;
    assert forall k :: 5 <= k < 5 + |u| ==> IsBareUrlChar(s[k]) by {
      forall k | 5 <= k < 5 + |u| ensures IsBareUrlChar(s[k]) {
        assert s[k] in u;
      }
    }
    assert 5 + |u| < |s| ==> s[5 + |u|] == rest[0];
    Text.RunEndAt(s, 5, IsBareUrlChar, 5 + |u|);
    assert s[5..5 + |u|] == u;
    assert UrlAt(s, 0) == Some(u);
  }

  /** A quoted URL right after `curl` is taken between the quotes, which may differ in kind. */
  lemma ExtractUrlQuoted(q1: char, u: string, q2: char, rest: string)
    requires Text.IsQuote(q1) && Text.IsQuote(q2)
    requires |u| > 0 && forall c :: c in u ==> !Text.IsQuote(c)
    ensures ExtractUrl("curl " + [q1] + u + [q2] + rest) == Some(u)
  {
    var s := "curl " + [q1] + u + [q2] + rest;
    assert Text.OccursAt(s, "curl", 0);
    CurlNormalize.SpaceEndAt(s, 4, 5);
    assert forall k :: 6 <= k < 6 + |u| ==> s[k] == u[k - 6];
    assert forall k :: 6 <= k < 6 + |u| ==> NotQuote(s[k]) by {
      forall k | 6 <= k < 6 + |u| ensures NotQuote(s[k]) {
        assert s[k] in u;
      }
    }
    assert s[6 + |u|] == q2;
    Text.RunEndAt(s, 6, NotQuote, 6 + |u|);
    assert s[6..6 + |u|] == u;
    assert QuotedAt(s, 5) == Some(Scan.Match(u, 7 + |u|));
    assert UrlAt(s, 0) == Some(u);
  }

  /** An option right after `curl` leaves no URL: the bare form refuses a leading `-`. */
  lemma OptionBeforeUrlFails(rest: string)
    requires !Text.Contains(rest, "curl")
    ensures ExtractUrl("curl -" + rest) == None
  {
    var s := "curl -" + rest;
    CurlNormalize.SpaceEndAt(s, 4, 5);
    Text.RunEndAt(s, 5, IsBareUrlChar, 5);
    assert UrlAt(s, 0).None?;
    forall i | 1 <= i <= |s| ensures UrlAt(s, i).None? {
      NoCurlAfterStart(rest, i);
    }
  }

  lemma NoCurlAfterStart(rest: string, i: nat)
    requires !Text.Contains(rest, "curl") && 1 <= i
    ensures !Text.OccursAt("curl -" + rest, "curl", i)
  {
    var s := "curl -" + rest;
    if i + 4 > |s| {
    } else if i < 6 {
      assert s[i] == "curl -"[i];
      assert s[i..i + 4][0] == s[i];
    } else {
      Text.ContainsIff(rest, "curl");
      assert s[6..] == rest;
      assert s[i..i + 4] == s[6..][i - 6..i - 2];
      assert !Text.OccursAt(rest, "curl", i - 6);
    }
  }

  /** An explicit method after text without `-` wins, upper-cased. */
  lemma ExplicitMethod(p: string, m: string, rest: string)
    requires '-' !in p
    requires |m| > 0 && forall c :: c in m ==> Text.IsAsciiLetter(c)
    requires |rest| > 0 ==> !Text.IsAsciiLetter(rest[0])
    ensures ExtractMethod(p + "-X " + m + rest) == Text.Upper(m)
  {
    var s := p + "-X " + m + rest;
    var n := |p|;
    assert s[..n] == p;
    forall i | 0 <= i < n ensures MethodAt(s, i).None? {
      NoFlagInPrefix(p, s, i);
    }
    ExplicitLayout(p, m, rest, s);
    MethodAtExplicit(s, n, m);
  }

  /** Where `p + "-X " + m + rest` puts the flag and the method. */
  lemma ExplicitLayout(p: string, m: string, rest: string, s: string)
    requires s == p + "-X " + m + rest
    requires forall c :: c in m ==> Text.IsAsciiLetter(c)
    requires |rest| > 0 ==> !Text.IsAsciiLetter(rest[0])
    ensures |p| + 3 + |m| <= |s|
    ensures s[|p|] == '-' && s[|p| + 1] == 'X' && s[|p| + 2] == ' '
    ensures forall k :: 0 <= k < |m| ==> s[|p| + 3 + k] == m[k] && Text.IsAsciiLetter(m[k])
    ensures |p| + 3 + |m| < |s| ==> !Text.IsAsciiLetter(s[|p| + 3 + |m|])
  {
    forall k | 0 <= k < |m| ensures s[|p| + 3 + k] == m[k] && Text.IsAsciiLetter(m[k]) {
      assert m[k] in m;
    }
    assert |p| + 3 + |m| < |s| ==> s[|p| + 3 + |m|] == rest[0];
  }

  /** `-X ` followed by a maximal run of letters at `n` captures that run. */
  lemma MethodAtExplicit(s: string, n: nat, m: string)
    requires n + 3 + |m| <= |s|
    requires s[n] == '-' && s[n + 1] == 'X' && s[n + 2] == ' '
    requires |m| > 0 && forall k :: 0 <= k < |m| ==> s[n + 3 + k] == m[k] && Text.IsAsciiLetter(m[k])
    requires n + 3 + |m| < |s| ==> !Text.IsAsciiLetter(s[n + 3 + |m|])
    ensures MethodAt(s, n) == Some(m)
  {
    assert Text.Lower(s)[n..n + 2] == "-x";
    assert s[n + 3 + 0] == m[0];
    CurlNormalize.SpaceEndAt(s, n + 2, n + 3);
    forall k | n + 3 <= k < n + 3 + |m| ensures Text.IsAsciiLetter(s[k]) {
      assert s[n + 3 + (k - n - 3)] == m[k - n - 3];
    }
    Text.RunEndAt(s, n + 3, Text.IsAsciiLetter, n + 3 + |m|);
    assert s[n + 3..n + 3 + |m|] == m;
  }

  lemma NoFlagInPrefix(p: string, s: string, i: nat)
    requires '-' !in p && Text.StartsWith(s, p) && i < |p|
    ensures MethodAt(s, i).None?
  {
    var l := Text.Lower(s);
    assert s[i] == p[i];
    assert l[i] == Text.LowerChar(p[i]) && l[i] != '-';
    assert i + 2 <= |l| ==> l[i..i + 2][0] == l[i];
    assert i + 9 <= |l| ==> l[i..i + 9][0] == l[i];
  }

  /** `-d '{\"a\":\"b\"}'`: the capture stops at the first quote of either kind, so the body is {"data": "{"}. */
  lemma QuotedJsonDataExample()
    ensures ExtractBody("-d '{\"a\":\"b\"}'") == map["data" := "{"]
  {
    QuotedJsonDataAt();
    assert !BraceWrapped("{");
  }

  /** The data argument of the example is the text up to its first inner quote. */
  lemma QuotedJsonDataAt()
    ensures DataAt("-d '{\"a\":\"b\"}'", 0) == Some("{")
  {
    var s := "-d '{\"a\":\"b\"}'";
    assert Text.OccursAt(s, "-d", 0);
    CurlNormalize.SpaceEndAt(s, 2, 3);
    Text.RunEndAt(s, 4, NotQuote, 5);
    assert s[4..5] == "{";
    assert QuotedAt(s, 3) == Some(Scan.Match("{", 6));
  }

  /** A quoted key without quotes, then a colon at once: the key and no white space around the colon. */
  lemma JsonKeyAtQuoted(s: string, k: string)
    requires |k| > 0 && '"' !in k
    requires Text.StartsWith(s, "\"" + k + "\":") && |s| > |k| + 3 && !Text.IsRegexSpace(s[|k| + 3])
    ensures JsonKeyAt(s, 0) == Some((k, |k| + 2, |k| + 3))
  {
    var nk := |k|;
    var t := "\"" + k + "\":";
    assert s[..|t|] == t;
    assert forall x :: 1 <= x < 1 + nk ==> s[x] == t[x] == k[x - 1];
    assert forall x :: 1 <= x < 1 + nk ==> NotDoubleQuote(s[x]) by {
      forall x | 1 <= x < 1 + nk ensures NotDoubleQuote(s[x]) {
        assert s[x] in k;
      }
    }
    assert s[1 + nk] == t[1 + nk] == '"';
    Text.RunEndAt(s, 1, NotDoubleQuote, 1 + nk);
    assert s[1..1 + nk] == k;
    assert s[2 + nk] == t[2 + nk] == ':';
    CurlNormalize.SpaceEndAt(s, 2 + nk, 2 + nk);
    CurlNormalize.SpaceEndAt(s, 3 + nk, 3 + nk);
  }

  /** A quoted value without quotes at `j`. */
  lemma JsonQuotedValueAtQuoted(s: string, j: nat, v: string)
    requires |v| > 0 && '"' !in v
    requires j + |v| + 2 <= |s| && s[j..j + |v| + 2] == "\"" + v + "\""
    ensures JsonQuotedValueAt(s, j) == Some(Scan.Match(v, j + |v| + 2))
  {
    var t := "\"" + v + "\"";
    assert s[j] == t[0] == '"';
    assert forall x :: j + 1 <= x < j + 1 + |v| ==> s[x] == t[x - j] == v[x - j - 1];
    assert forall x :: j + 1 <= x < j + 1 + |v| ==> NotDoubleQuote(s[x]) by {
      forall x | j + 1 <= x < j + 1 + |v| ensures NotDoubleQuote(s[x]) {
        assert s[x] in v;
      }
    }
    assert s[j + 1 + |v|] == t[1 + |v|] == '"';
    Text.RunEndAt(s, j + 1, NotDoubleQuote, j + 1 + |v|);
    assert s[j + 1..j + 1 + |v|] == v;
  }

  /** The pair scanner on `"k":"v"` followed by anything: one trimmed pair, ending after the closing quote. */
  lemma JsonPairAtQuoted(s: string, k: string, v: string)
    requires |k| > 0 && '"' !in k && |v| > 0 && '"' !in v
    requires Text.StartsWith(s, "\"" + k + "\":\"" + v + "\"")
    ensures JsonPairAt(s, 0) == Some(Scan.Match((Text.Trim(k), Text.Trim(v)), |k| + |v| + 5))
  {
    var j := |k| + 3;
    QuotedPairLayout(s, k, v);
    JsonKeyAtQuoted(s, k);
    JsonQuotedValueAtQuoted(s, j, v);
    JsonPairFromParts(s, 0, k, |k| + 2, j, Scan.Match(v, j + |v| + 2));
  }

  /** Where the parts of `"k":"v"` sit at the start of `s`. */
  lemma QuotedPairLayout(s: string, k: string, v: string)
    requires Text.StartsWith(s, "\"" + k + "\":\"" + v + "\"")
    ensures |k| + |v| + 5 <= |s|
    ensures s[..|k| + 3] == "\"" + k + "\":"
    ensures s[|k| + 3] == '"'
    ensures s[|k| + 3..|k| + |v| + 5] == "\"" + v + "\""
  {
    var t := "\"" + k + "\":\"" + v + "\"";
    assert s[..|t|] == t;
    assert t[..|k| + 3] == "\"" + k + "\":";
    assert s[..|k| + 3] == t[..|k| + 3];
    assert t[|k| + 3..] == "\"" + v + "\"";
    assert s[|k| + 3..|k| + |v| + 5] == t[|k| + 3..];
  }

  lemma JsonPairFromParts(s: string, i: nat, key: string, c: nat, j: nat, m: Scan.Match<string>)
    requires i <= |s| && JsonKeyAt(s, i) == Some((key, c, j)) && JsonQuotedValueAt(s, j) == Some(m)
    ensures JsonPairAt(s, i) == Some(Scan.Match((Text.Trim(key), Text.Trim(m.value)), m.end))
  {
  }

  /**
   * What parseJsonToMap does when its argument does hold quotes: one quoted
   * key and one quoted value give one trimmed pair.
   */
  lemma ParseJsonToMapPair(k: string, v: string)
    requires |k| > 0 && '"' !in k && |v| > 0 && '"' !in v
    ensures ParseJsonToMap("{\"" + k + "\":\"" + v + "\"}") == map[Text.Trim(k) := Text.Trim(v)]
  {
    var inner := "\"" + k + "\":\"" + v + "\"";
    WrappedPair(k, v);
    SinglePair(inner, k, v);
    assert Pairs.ToMap([(Text.Trim(k), Text.Trim(v))]) == map[Text.Trim(k) := Text.Trim(v)];
  }

  /** The braces of `{"k":"v"}` enclose `"k":"v"`, which trimming keeps. */
  lemma WrappedPair(k: string, v: string)
    ensures var json := "{\"" + k + "\":\"" + v + "\"}";
      var inner := "\"" + k + "\":\"" + v + "\"";
      BraceWrapped(json) && json[1..|json| - 1] == inner && Text.Trim(inner) == inner
  {
    var json := "{\"" + k + "\":\"" + v + "\"}";
    var inner := "\"" + k + "\":\"" + v + "\"";
    assert json == "{" + inner + "}";
    assert json[1..|json| - 1] == inner;
    Text.TrimKeeps(inner);
  }

  /** `"k":"v"` alone holds exactly one pair. */
  lemma SinglePair(inner: string, k: string, v: string)
    requires inner == "\"" + k + "\":\"" + v + "\""
    requires |k| > 0 && '"' !in k && |v| > 0 && '"' !in v
    ensures JsonPairs(inner, 0) == [(Text.Trim(k), Text.Trim(v))]
  {
    assert inner[..|inner|] == inner;
    JsonPairAtQuoted(inner, k, v);
    var at := (i: nat) => if i <= |inner| then JsonPairAt(inner, i) else None;
    assert forall x: nat :: x <= |inner| ==> at(x) == JsonPairAt(inner, x);
    Scan.FindFromLeftmost(|inner|, 0, at, 0);
    assert JsonPairs(inner, |inner|) == [];
  }
}

/**
 * CurlParser.generateName: a display name for an imported call, from the
 * last path segment of its URL in Title Case, else from the host, else a
 * fixed text.
 */
module CurlName {
  import opened Wrappers
  import Text
  import Scan

  const DefaultName := "Imported cURL"

  /** `https?://` at `i`: the index just past it (the optional `s` can only match one way). */
  function SchemeEnd(s: string, i: nat): (r: Option<nat>)
    requires i <= |s|
    ensures r.Some? ==> i + 7 <= r.value <= |s| && s[i..i + 4] == "http" && s[r.value - 3] == ':'
  {
    if Text.OccursAt(s, "https://", i) then
      assert s[i..i + 4] == s[i..i + 8][..4];
      Some(i + 8)
    else if Text.OccursAt(s, "http://", i) then
      assert s[i..i + 7] == "http://";
      assert s[i..i + 4] == s[i..i + 7][..4];
      assert s[i + 4] == s[i..i + 7][4];
      Some(i + 7)
    else None
  }

  predicate NotSlash(c: char) { c != '/' }

  /**
   * `$` without MULTILINE at `q`, when the character before `q` is not a line
   * terminator: the end, before a last line terminator, or before a final "\r\n".
   */
  predicate DollarAt(s: string, q: nat) {
    q == |s|
    || (q + 1 == |s| && Text.IsLineTerminator(s[q]))
    || (q + 2 == |s| && s[q] == '\r' && s[q + 1] == '\n')
  }

  /** Where `(?:\\?|$)` matches. */
  predicate StopsAt(s: string, q: nat) {
    (q < |s| && s[q] == '?') || DollarAt(s, q)
  }

  /** `.` may cover the characters from `g` up to `q`. */
  predicate Dotted(s: string, g: nat, q: nat)
    requires g <= q <= |s|
  {
    forall x :: g <= x < q ==> !Text.IsLineTerminator(s[x])
  }

  /**
   * The lazy `(.+?)` starting at `g`, trying ends `q`, `q + 1`, ...: the
   * first end that `.` can reach and where the stop matches.
   */
  function LazyEnd(s: string, g: nat, q: nat): (r: Option<nat>)
    requires g < q <= |s| + 1
    requires forall x :: g <= x < q - 1 ==> !Text.IsLineTerminator(s[x])
    ensures r.Some? ==> q <= r.value <= |s| && Dotted(s, g, r.value) && StopsAt(s, r.value)
    ensures r.Some? ==> forall p :: q <= p < r.value ==> !StopsAt(s, p)
    ensures r.None? ==> forall p :: q <= p <= |s| && Dotted(s, g, p) ==> !StopsAt(s, p)
    decreases |s| + 1 - q
  {
    if q > |s| || Text.IsLineTerminator(s[q - 1]) then None
    else if StopsAt(s, q) then Some(q)
    else LazyEnd(s, g, q + 1)
  }

  /** The lazy group ends at `e` when `e` is the first stop that `.` reaches. */
  lemma {:induction false} LazyEndAt(s: string, g: nat, q: nat, e: nat)
    requires g < q <= e <= |s|
    requires Dotted(s, g, e) && StopsAt(s, e)
    requires forall p :: q <= p < e ==> !StopsAt(s, p)
    ensures LazyEnd(s, g, q) == Some(e)
    decreases e - q
  {
    if q < e {
      LazyEndAt(s, g, q + 1, e);
    }
  }

  /** `https?://[^/]+/(.+?)(?:\\?|$)` at `i`: the path group. */
  function PathAt(s: string, i: nat): (r: Option<string>)
    requires i <= |s|
    ensures r.Some? ==> |r.value| > 0 && forall c :: c in r.value ==> !Text.IsLineTerminator(c)
  {
    match SchemeEnd(s, i)
    case None => None
    case Some(h) =>
      var e := Text.RunEnd(s, h, NotSlash);
      if h < e < |s| then
        var g := e + 1;
        match LazyEnd(s, g, g + 1)
        case None => None
        case Some(q) =>
          assert forall c :: c in s[g..q] ==> !Text.IsLineTerminator(c) by {
            forall c | c in s[g..q] ensures !Text.IsLineTerminator(c) {
              var x :| 0 <= x < q - g && s[g..q][x] == c;
              assert s[g + x] == c;
            }
          }
          Some(s[g..q])
      else None
  }

  /** `https?://([^/]+)` at `i`: the host group. */
  function HostAt(s: string, i: nat): (r: Option<string>)
    requires i <= |s|
    ensures r.Some? ==> |r.value| > 0 && '/' !in r.value
  {
    match SchemeEnd(s, i)
    case None => None
    case Some(h) =>
      var e := Text.RunEnd(s, h, NotSlash);
      if e > h then
        assert '/' !in s[h..e] by {
          forall x | 0 <= x < e - h ensures s[h..e][x] != '/' {
            assert s[h + x] != '/';
          }
        }
        Some(s[h..e])
      else None
  }

  /** The leftmost match of a position scanner over `s`. */
  function Leftmost(s: string, at: nat -> Option<string>): (r: Option<string>)
    ensures r.Some? ==> exists i :: 0 <= i <= |s| && at(i) == r
    ensures r.None? ==> forall i :: 0 <= i <= |s| ==> at(i).None?
  {
    var f := Scan.FindFrom(|s|, 0, at);
    if f.Some? then Some(f.value.1) else None
  }

  function FindPath(s: string): (r: Option<string>)
    ensures r.Some? ==> |r.value| > 0
  {
    Leftmost(s, (i: nat) => if i <= |s| then PathAt(s, i) else None)
  }

  function FindHost(s: string): (r: Option<string>)
    ensures r.Some? ==> |r.value| > 0 && '/' !in r.value
  {
    Leftmost(s, (i: nat) => if i <= |s| then HostAt(s, i) else None)
  }

  // ----- String.split("/") -----

  /** The pieces between the slashes, all of them (split with a negative limit). */
  function SplitAll(p: string): (r: seq<string>)
    ensures |r| > 0
    ensures forall k :: 0 <= k < |r| ==> '/' !in r[k]
    decreases |p|
  {
    var i := Text.RunEnd(p, 0, NotSlash);
    assert '/' !in p[..i] by {
      forall x | 0 <= x < i ensures p[..i][x] != '/' {
        assert p[x] != '/';
      }
    }
    if i == |p| then [p] else [p[..i]] + SplitAll(p[i + 1..])
  }

  function JoinSlash(xs: seq<string>): string
    requires |xs| > 0
  {
    if |xs| == 1 then xs[0] else xs[0] + "/" + JoinSlash(xs[1..])
  }

  /** Splitting and joining again gives back the text. */
  lemma {:induction false} SplitJoin(p: string)
    ensures JoinSlash(SplitAll(p)) == p
    decreases |p|
  {
    var i := Text.RunEnd(p, 0, NotSlash);
    if i < |p| {
      SplitJoin(p[i + 1..]);
      var r := SplitAll(p);
      assert r == [p[..i]] + SplitAll(p[i + 1..]);
      assert r[1..] == SplitAll(p[i + 1..]);
      assert p == p[..i] + "/" + p[i + 1..];
    }
  }

  /** The trailing empty strings removed, as `split` does with limit 0. */
  function DropTrailingEmpty(xs: seq<string>): (r: seq<string>)
    ensures |r| <= |xs| && r == xs[..|r|]
    ensures forall k :: |r| <= k < |xs| ==> xs[k] == ""
    ensures |r| > 0 ==> r[|r| - 1] != ""
    decreases |xs|
  {
    if |xs| > 0 && xs[|xs| - 1] == "" then DropTrailingEmpty(xs[..|xs| - 1]) else xs
  }

  /** `String.split("/")`: no slash gives the text itself; otherwise the pieces without trailing empties. */
  function Split(p: string): (r: seq<string>)
    ensures forall k :: 0 <= k < |r| ==> '/' !in r[k]
    ensures |p| > 0 && |r| > 0 ==> r[|r| - 1] != ""
  {
    if '/' !in p then [p] else DropTrailingEmpty(SplitAll(p))
  }

  /** The segments vanish exactly when the path is all slashes. */
  lemma SplitEmptyIffSlashes(p: string)
    requires |p| > 0
    ensures |Split(p)| == 0 <==> forall c :: c in p ==> c == '/'
  {
    if '/' !in p {
      assert p[0] in p;
    } else {
      var xs := SplitAll(p);
      var r := DropTrailingEmpty(xs);
      SplitJoin(p);
      if |r| == 0 {
        AllEmptyJoin(xs);
      } else {
        var c := NonSlashIn(xs, |r| - 1);
        assert c in p;
      }
    }
  }

  /** Joining empty pieces gives only slashes. */
  lemma {:induction false} AllEmptyJoin(xs: seq<string>)
    requires |xs| > 0 && forall k :: 0 <= k < |xs| ==> xs[k] == ""
    ensures forall c :: c in JoinSlash(xs) ==> c == '/'
    decreases |xs|
  {
    if |xs| > 1 {
      AllEmptyJoin(xs[1..]);
      assert JoinSlash(xs) == "/" + JoinSlash(xs[1..]);
    }
  }

  /** A non-empty slash-free piece puts a non-slash character into the joined text. */
  lemma {:induction false} NonSlashIn(xs: seq<string>, k: nat) returns (c: char)
    requires k < |xs| && xs[k] != "" && '/' !in xs[k]
    ensures c != '/' && c in JoinSlash(xs)
    decreases k
  {
    if k == 0 {
      c := xs[0][0];
      if |xs| > 1 {
        assert JoinSlash(xs) == xs[0] + "/" + JoinSlash(xs[1..]);
      }
    } else {
      c := NonSlashIn(xs[1..], k - 1);
      assert JoinSlash(xs) == xs[0] + "/" + JoinSlash(xs[1..]);
    }
  }

  // ----- Title Case -----

  /** `replaceAll("[-_]", " ")`. */
  function Spaced(x: string): (r: string)
    ensures |r| == |x|
    ensures forall i :: 0 <= i < |x| ==> r[i] == (if x[i] == '-' || x[i] == '_' then ' ' else x[i])
  {
    seq(|x|, i requires 0 <= i < |x| => if x[i] == '-' || x[i] == '_' then ' ' else x[i])
  }

  /** Whether the character at `i` starts a word: it follows white space, or it is first and `cap` is set. */
  predicate StartsWord(x: string, i: nat, cap: bool)
    requires i < |x|
  {
    if i == 0 then cap else Text.IsWhitespace(x[i - 1])
  }

  /** The `capitalizeNext` loop, with the flag's value on entry. */
  function TitleFrom(x: string, cap: bool): (r: string)
    ensures |r| == |x|
    ensures forall i :: 0 <= i < |x| ==>
      r[i] == (if !Text.IsWhitespace(x[i]) && StartsWord(x, i, cap) then Text.UpperChar(x[i]) else x[i])
    decreases |x|
  {
    if |x| == 0 then ""
    else
      var c := x[0];
      var next := Text.IsWhitespace(c);
      var head := if !next && cap then Text.UpperChar(c) else c;
      var rest := TitleFrom(x[1..], next);
      assert forall i :: 1 <= i < |x| ==> StartsWord(x, i, cap) == StartsWord(x[1..], i - 1, next) by {
        forall i | 1 <= i < |x| ensures StartsWord(x, i, cap) == StartsWord(x[1..], i - 1, next) {
          if i > 1 { assert x[1..][i - 2] == x[i - 1]; }
        }
      }
      [head] + rest
  }

  /** Title Case: the first non-space character of every word upper-cased (ASCII), the rest kept. */
  function TitleCase(x: string): (r: string)
    ensures |r| == |x|
    ensures forall i :: 0 <= i < |x| ==>
      r[i] == (if !Text.IsWhitespace(x[i]) && (i == 0 || Text.IsWhitespace(x[i - 1])) then Text.UpperChar(x[i]) else x[i])
  {
    TitleFrom(x, true)
  }

  // ----- generateName -----

  /** The fallbacks after the path: the host, else the fixed name. */
  function HostOrDefault(url: string): (r: string)
    ensures |r| > 0
    ensures FindHost(url).Some? ==> r == FindHost(url).value
    ensures FindHost(url).None? ==> r == DefaultName
  {
    match FindHost(url)
    case Some(h) => h
    case None => DefaultName
  }

  /** generateName, for a non-null URL. */
  function GenerateName(url: string): (r: string)
    ensures |r| > 0
    ensures |url| == 0 ==> r == DefaultName
    ensures FindPath(url).None? ==> r == HostOrDefault(url)
  {
    if |url| == 0 then DefaultName
    else
      match FindPath(url)
      case None => HostOrDefault(url)
      case Some(path) =>
        var segments := Split(path);
        if |segments| > 0 then
          TitleCase(Spaced(segments[|segments| - 1]))
        else HostOrDefault(url)
  }

  // ----- what generateName yields -----

  predicate IsScheme(scheme: string) {
    scheme == "http://" || scheme == "https://"
  }

  lemma SchemeAtStart(scheme: string, rest: string)
    requires IsScheme(scheme)
    ensures SchemeEnd(scheme + rest, 0) == Some(|scheme|)
  {
    var s := scheme + rest;
    assert s[0..|scheme|] == scheme;
    if scheme == "http://" {
      assert s[4] == ':';
      assert !Text.OccursAt(s, "https://", 0) by {
        if |s| >= 8 { assert s[0..8][4] == ':'; }
      }
    }
  }

  /** Text without a colon holds no scheme, so it gets the fixed name. */
  lemma NoColonDefault(url: string)
    requires ':' !in url
    ensures GenerateName(url) == DefaultName
  {
    forall k | 0 <= k < |url| ensures url[k] != ':' {
      assert url[k] in url;
    }
    var at := (i: nat) => if i <= |url| then PathAt(url, i) else None;
    assert forall i :: 0 <= i <= |url| ==> at(i).None?;
    var ah := (i: nat) => if i <= |url| then HostAt(url, i) else None;
    assert forall i :: 0 <= i <= |url| ==> ah(i).None?;
  }

  /** The last piece of `dirs + seg` is `seg`, when `dirs` is empty or ends in a slash. */
  lemma SplitLast(dirs: string, seg: string)
    requires seg != "" && '/' !in seg
    requires dirs == "" || dirs[|dirs| - 1] == '/'
    ensures |Split(dirs + seg)| > 0 && Split(dirs + seg)[|Split(dirs + seg)| - 1] == seg
  {
    if dirs == "" {
      assert dirs + seg == seg;
    } else {
      var d := dirs[..|dirs| - 1];
      assert dirs + seg == d + ("/" + seg);
      assert '/' in dirs + seg by { assert (dirs + seg)[|dirs| - 1] == '/'; }
      SplitAllLast(d, seg);
    }
  }

  lemma {:induction false} SplitAllLast(p: string, seg: string)
    requires '/' !in seg
    ensures SplitAll(p + ("/" + seg))[|SplitAll(p + ("/" + seg))| - 1] == seg
    decreases |p|
  {
    var b := "/" + seg;
    var t := p + b;
    var i := Text.RunEnd(t, 0, NotSlash);
    assert t[|p|] == '/';
    assert i <= |p| < |t|;
    var rest := SplitAll(t[i + 1..]);
    assert SplitAll(t) == [t[..i]] + rest;
    assert SplitAll(t)[|SplitAll(t)| - 1] == rest[|rest| - 1];
    if i == |p| {
      assert t[i + 1..] == seg;
      Text.RunEndAt(seg, 0, NotSlash, |seg|);
      assert SplitAll(seg) == [seg];
    } else {
      SuffixOfConcat(p, b, i + 1);
      SplitAllLast(p[i + 1..], seg);
    }
  }

  lemma SuffixOfConcat(a: string, b: string, j: nat)
    requires j <= |a|
    ensures (a + b)[j..] == a[j..] + b
  {
  }

  /** The host run from `h` stops at the slash after `host`. */
  lemma HostEnds(s: string, h: nat, host: string)
    requires h + |host| < |s| && s[h..h + |host|] == host
    requires '/' !in host && s[h + |host|] == '/'
    ensures Text.RunEnd(s, h, NotSlash) == h + |host|
  {
    forall k | h <= k < h + |host| ensures NotSlash(s[k]) {
      assert s[k] == host[k - h];
    }
    Text.RunEndAt(s, h, NotSlash, h + |host|);
  }

  /** No query mark and no line terminator: `.+?` crosses all of it without stopping. */
  predicate PlainPath(path: string) {
    forall x :: 0 <= x < |path| ==> path[x] != '?' && !Text.IsLineTerminator(path[x])
  }

  /** The lazy path group starting at `g` ends where the query or the end of `s` begins. */
  lemma PathEnds(s: string, g: nat, path: string, tail: string)
    requires g <= |s| && s[g..] == path + tail
    requires path != "" && PlainPath(path)
    requires tail == "" || tail[0] == '?'
    ensures LazyEnd(s, g, g + 1) == Some(g + |path|)
  {
    var q := g + |path|;
    forall x | g <= x < q ensures !Text.IsLineTerminator(s[x]) && s[x] != '?' {
      assert s[x] == path[x - g];
    }
    assert StopsAt(s, q) by {
      if tail != "" { assert s[q] == tail[0]; }
    }
    LazyEndAt(s, g, g + 1, q);
  }

  /** PathAt from the three positions its scanner finds. */
  lemma PathAtParts(s: string, h: nat, e: nat, q: nat)
    requires SchemeEnd(s, 0) == Some(h) && h < e < |s| && Text.RunEnd(s, h, NotSlash) == e
    requires LazyEnd(s, e + 1, e + 2) == Some(q)
    ensures PathAt(s, 0) == Some(s[e + 1..q])
  {
  }

  /** Where the parts of `scheme host / path tail` sit. */
  lemma UrlLayout(scheme: string, host: string, path: string, tail: string)
    ensures var url := scheme + (host + "/" + path + tail);
      var e := |scheme| + |host|;
      && e < |url| && url[|scheme|..e] == host && url[e] == '/'
      && url[e + 1..] == path + tail && url[e + 1..e + 1 + |path|] == path
  {
    var url := scheme + (host + "/" + path + tail);
    var e := |scheme| + |host|;
    assert url[e + 1..] == path + tail;
  }

  /** Where the path group of a URL `scheme host / path tail` is found. */
  lemma PathAtStart(scheme: string, host: string, path: string, tail: string)
    requires IsScheme(scheme)
    requires host != "" && '/' !in host
    requires path != "" && PlainPath(path)
    requires tail == "" || tail[0] == '?'
    ensures PathAt(scheme + (host + "/" + path + tail), 0) == Some(path)
  {
    var url := scheme + (host + "/" + path + tail);
    SchemeAtStart(scheme, host + "/" + path + tail);
    UrlLayout(scheme, host, path, tail);
    PathAtLayout(url, |scheme|, |scheme| + |host|, path, tail);
  }

  /** The path pattern on a URL laid out as scheme (ending at `h`), host up to `e`, `/`, path and tail. */
  lemma PathAtLayout(url: string, h: nat, e: nat, path: string, tail: string)
    requires SchemeEnd(url, 0) == Some(h) && h < e < |url|
    requires '/' !in url[h..e] && url[e] == '/'
    requires url[e + 1..] == path + tail && path != "" && PlainPath(path)
    requires tail == "" || tail[0] == '?'
    ensures PathAt(url, 0) == Some(path)
  {
    var q := e + 1 + |path|;
    HostEnds(url, h, url[h..e]);
    PathEnds(url, e + 1, path, tail);
    assert url[e + 1..q] == (path + tail)[..|path|] == path;
    PathAtParts(url, h, e, q);
  }

  /**
   * A URL `scheme host / dirs seg tail`, where the tail is empty or a query,
   * is named after its last segment.
   */
  lemma NameFromLastSegment(scheme: string, host: string, dirs: string, seg: string, tail: string)
    requires IsScheme(scheme)
    requires host != "" && '/' !in host
    requires seg != "" && '/' !in seg
    requires dirs == "" || dirs[|dirs| - 1] == '/'
    requires forall c :: c in dirs + seg ==> c != '?' && !Text.IsLineTerminator(c)
    requires tail == "" || tail[0] == '?'
    ensures GenerateName(scheme + host + "/" + dirs + seg + tail) == TitleCase(Spaced(seg))
  {
    var path := dirs + seg;
    var url := scheme + host + "/" + dirs + seg + tail;
    assert url == scheme + (host + "/" + path + tail);
    forall x | 0 <= x < |path| ensures path[x] != '?' && !Text.IsLineTerminator(path[x]) {
      assert path[x] in path;
    }
    FindPathStart(scheme, host, path, tail);
    SplitLast(dirs, seg);
    NameOfPath(url, path);
  }

  lemma FindPathStart(scheme: string, host: string, path: string, tail: string)
    requires IsScheme(scheme)
    requires host != "" && '/' !in host
    requires path != "" && PlainPath(path)
    requires tail == "" || tail[0] == '?'
    ensures FindPath(scheme + (host + "/" + path + tail)) == Some(path)
  {
    var url := scheme + (host + "/" + path + tail);
    PathAtStart(scheme, host, path, tail);
    var at := (i: nat) => if i <= |url| then PathAt(url, i) else None;
    Scan.FindFromLeftmost(|url|, 0, at, 0);
  }

  /** A found path with segments names the call after its last segment. */
  lemma NameOfPath(url: string, path: string)
    requires |url| > 0 && FindPath(url) == Some(path) && |Split(path)| > 0
    ensures GenerateName(url) == TitleCase(Spaced(Split(path)[|Split(path)| - 1]))
  {
  }

  /** A URL that is only `scheme host` is named after its host. */
  lemma NameFromHost(scheme: string, host: string)
    requires IsScheme(scheme)
    requires host != "" && '/' !in host && ':' !in host
    ensures GenerateName(scheme + host) == host
  {
    var url := scheme + host;
    HostOnlyScan(scheme, host);
    var at := (i: nat) => if i <= |url| then PathAt(url, i) else None;
    assert forall i :: 0 <= i <= |url| ==> at(i).None?;
    var ah := (i: nat) => if i <= |url| then HostAt(url, i) else None;
    Scan.FindFromLeftmost(|url|, 0, ah, 0);
  }

  /** In `scheme host` the path pattern matches nowhere and the host pattern matches at the start. */
  lemma HostOnlyScan(scheme: string, host: string)
    requires IsScheme(scheme)
    requires host != "" && '/' !in host && ':' !in host
    ensures forall i :: 0 <= i <= |scheme + host| ==> PathAt(scheme + host, i).None?
    ensures HostAt(scheme + host, 0) == Some(host)
  {
    var url := scheme + host;
    var h := |scheme|;
    SchemeAtStart(scheme, host);
    forall k | h <= k < |url| ensures NotSlash(url[k]) && url[k] != ':' {
      assert url[k] == host[k - h];
      assert host[k - h] in host;
    }
    Text.RunEndAt(url, h, NotSlash, |url|);
    forall i | 0 < i <= |url| ensures SchemeEnd(url, i).None? {
      if i < h {
        assert url[i] == scheme[i];
      }
    }
    assert url[h..|url|] == host;
  }
}

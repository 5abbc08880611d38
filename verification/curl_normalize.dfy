/**
 * The normalisation parseCurl applies before any extraction: line
 * continuations (`\` followed by white space containing a newline) become a
 * space, every white-space run becomes one space, and the ends are trimmed.
 */
module CurlNormalize {
  import Text

  /** End of the maximal run of `\s` characters starting at `i`. */
  function SpaceEnd(s: string, i: nat): (j: nat)
    requires i <= |s|
    ensures i <= j <= |s|
    ensures forall k :: i <= k < j ==> Text.IsRegexSpace(s[k])
    ensures j < |s| ==> !Text.IsRegexSpace(s[j])
    decreases |s| - i
  {
    if i == |s| || !Text.IsRegexSpace(s[i]) then i else SpaceEnd(s, i + 1)
  }

  lemma {:induction false} SpaceEndAt(s: string, i: nat, e: nat)
    requires i <= e <= |s|
    requires forall k :: i <= k < e ==> Text.IsRegexSpace(s[k])
    requires e < |s| ==> !Text.IsRegexSpace(s[e])
    ensures SpaceEnd(s, i) == e
    decreases e - i
  {
    if i < e {
      SpaceEndAt(s, i + 1, e);
    }
  }

  /**
   * `replaceAll("\\\\\\s*\\n\\s*", " ")`. At a backslash the first `\s*`
   * backs off to the last newline of the following white-space run and the
   * second takes the rest of it, so the match is the backslash plus the whole
   * run, provided the run holds a newline.
   */
  function StripContinuations(s: string): (r: string)
    ensures |r| <= |s|
    decreases |s|
  {
    if |s| == 0 then ""
    else if s[0] == '\\' && '\n' in s[1..SpaceEnd(s, 1)] then " " + StripContinuations(s[SpaceEnd(s, 1)..])
    else [s[0]] + StripContinuations(s[1..])
  }

  /** `replaceAll("\\s+", " ")`: every maximal white-space run becomes one space. */
  function Collapse(s: string): (r: string)
    ensures |r| <= |s|
    ensures |s| > 0 ==> |r| > 0 && (r[0] == ' ' <==> Text.IsRegexSpace(s[0]))
    ensures Collapsed(r)
    decreases |s|
  {
    if |s| == 0 then ""
    else if Text.IsRegexSpace(s[0]) then
      var j := SpaceEnd(s, 0);
      var rest := Collapse(s[j..]);
      var r := " " + rest;
      assert forall i :: 1 <= i < |r| ==> r[i] == rest[i - 1];
      r
    else
      var rest := Collapse(s[1..]);
      var r := [s[0]] + rest;
      assert forall i :: 1 <= i < |r| ==> r[i] == rest[i - 1];
      r
  }

  /** The only white space is a single space between non-space characters or at an end. */
  predicate Collapsed(r: string) {
    (forall i :: 0 <= i < |r| && Text.IsRegexSpace(r[i]) ==> r[i] == ' ')
    && (forall i :: 0 <= i < |r| - 1 && r[i] == ' ' ==> r[i + 1] != ' ')
  }

  /** What parseCurl matches against. */
  predicate Normalized(r: string) {
    Collapsed(r) && '\n' !in r && (|r| > 0 ==> !Text.IsTrimmable(r[0]) && !Text.IsTrimmable(r[|r| - 1]))
  }

  /** A character that none of the three rewrites can remove: above U+0020 and not a backslash. */
  predicate Visible(c: char) {
    !Text.IsTrimmable(c) && c != '\\'
  }

  /**
   * The normalised command: trimmed and collapsed, holding every visible
   * character of the input in order, and equal to the Matcher loop's
   * continuation rewrite followed by the character-by-character collapse
   * and the trim.
   */
  function Normalize(s: string): (r: string)
    ensures Normalized(r)
    ensures |r| <= |s|
    ensures Keep(r, Visible) == Keep(s, Visible)
    ensures r == Text.Trim(CollapseFrom(ReplaceContinuations(s), false))
  {
    var c := Collapse(StripContinuations(s));
    StripIsReplaceAll(s);
    CollapseIsStepwise(StripContinuations(s));
    TrimCollapsed(c);
    StripKeeps(s, Visible);
    CollapseKeepsOthers(StripContinuations(s), Visible);
    TrimKeepsOthers(c, Visible);
    Text.Trim(c)
  }

  /** Trimming collapsed text leaves it collapsed, without a newline and without white space at either end. */
  lemma TrimCollapsed(c: string)
    requires Collapsed(c)
    ensures Normalized(Text.Trim(c))
  {
    var r := Text.Trim(c);
    var a := Text.LeadingTrimmable(c);
    assert forall i :: 0 <= i < |r| ==> r[i] == c[a + i];
    assert '\n' !in r by {
      forall i | 0 <= i < |r| ensures r[i] != '\n' {
        assert Text.IsRegexSpace(c[a + i]) ==> c[a + i] == ' ';
      }
    }
  }

  // ----- what the rewrites keep -----

  /** The characters of `s` that satisfy `p`, in order. */
  function Keep(s: string, p: char -> bool): (r: string)
    ensures |r| <= |s|
    decreases |s|
  {
    if |s| == 0 then "" else (if p(s[0]) then [s[0]] else "") + Keep(s[1..], p)
  }

  lemma KeepCons(c: char, t: string, p: char -> bool)
    ensures Keep([c] + t, p) == (if p(c) then [c] else "") + Keep(t, p)
  {
    assert ([c] + t)[1..] == t;
  }

  lemma {:induction false} KeepAppend(a: string, b: string, p: char -> bool)
    ensures Keep(a + b, p) == Keep(a, p) + Keep(b, p)
    decreases |a|
  {
    if |a| > 0 {
      assert (a + b)[1..] == a[1..] + b;
      KeepAppend(a[1..], b, p);
    } else {
      assert a + b == b;
    }
  }

  /** Skipping characters that `p` rejects does not change what is kept. */
  lemma {:induction false} KeepSkip(s: string, i: nat, j: nat, p: char -> bool)
    requires i <= j <= |s|
    requires forall k :: i <= k < j ==> !p(s[k])
    ensures Keep(s[i..], p) == Keep(s[j..], p)
    decreases j - i
  {
    if i < j {
      assert s[i..][1..] == s[i + 1..];
      KeepSkip(s, i + 1, j, p);
    }
  }

  /**
   * `replaceAll("\\s+", " ")` read one character at a time: a white-space
   * character right after another is dropped, the first of a run becomes one
   * space, every other character is copied.
   */
  function CollapseFrom(s: string, afterSpace: bool): (r: string)
    decreases |s|
  {
    if |s| == 0 then ""
    else if Text.IsRegexSpace(s[0]) then (if afterSpace then "" else " ") + CollapseFrom(s[1..], true)
    else [s[0]] + CollapseFrom(s[1..], false)
  }

  lemma {:induction false} CollapseFromSpaces(s: string, i: nat, j: nat)
    requires i <= j <= |s|
    requires forall k :: i <= k < j ==> Text.IsRegexSpace(s[k])
    ensures CollapseFrom(s[i..], true) == CollapseFrom(s[j..], true)
    decreases j - i
  {
    if i < j {
      assert s[i..][1..] == s[i + 1..];
      CollapseFromSpaces(s, i + 1, j);
    }
  }

  /** Collapsing whole runs is the same as the character-by-character reading. */
  lemma {:induction false} CollapseIsStepwise(s: string)
    ensures Collapse(s) == CollapseFrom(s, false)
    decreases |s|
  {
    if |s| > 0 {
      if Text.IsRegexSpace(s[0]) {
        var j := SpaceEnd(s, 0);
        CollapseIsStepwise(s[j..]);
        CollapseFromSpaces(s, 1, j);
        assert CollapseFrom(s[j..], true) == CollapseFrom(s[j..], false);
      } else {
        CollapseIsStepwise(s[1..]);
      }
    }
  }

  lemma {:induction false} CollapseFromKeeps(s: string, afterSpace: bool, p: char -> bool)
    requires forall c :: Text.IsRegexSpace(c) ==> !p(c)
    ensures Keep(CollapseFrom(s, afterSpace), p) == Keep(s, p)
    decreases |s|
  {
    if |s| > 0 {
      var rest := CollapseFrom(s[1..], Text.IsRegexSpace(s[0]));
      CollapseFromKeeps(s[1..], Text.IsRegexSpace(s[0]), p);
      KeepCons(s[0], s[1..], p);
      assert [s[0]] + s[1..] == s;
      if Text.IsRegexSpace(s[0]) {
        assert Text.IsRegexSpace(' ');
        if !afterSpace {
          KeepCons(' ', rest, p);
        } else {
          assert "" + rest == rest;
        }
      } else {
        KeepCons(s[0], rest, p);
      }
    }
  }

  /** Two spaces and a tab between words become one space. */
  lemma CollapseExample()
    ensures Collapse("a  \tb") == "a b"
  {
    CollapseIsStepwise("a  \tb");
    assert "a  \tb"[1..] == "  \tb";
    assert "  \tb"[1..] == " \tb";
    assert " \tb"[1..] == "\tb";
    assert "\tb"[1..] == "b";
  }

  /** Collapsing keeps every character other than white space, in order. */
  lemma CollapseKeepsOthers(s: string, p: char -> bool)
    requires forall c :: Text.IsRegexSpace(c) ==> !p(c)
    ensures Keep(Collapse(s), p) == Keep(s, p)
  {
    CollapseIsStepwise(s);
    CollapseFromKeeps(s, false, p);
  }

  /** Removing continuations keeps every character other than a backslash or white space, in order. */
  lemma {:induction false} StripKeeps(s: string, p: char -> bool)
    requires !p('\\') && forall c :: Text.IsRegexSpace(c) ==> !p(c)
    ensures Keep(StripContinuations(s), p) == Keep(s, p)
    decreases |s|
  {
    if |s| > 0 {
      assert [s[0]] + s[1..] == s;
      KeepCons(s[0], s[1..], p);
      if s[0] == '\\' && '\n' in s[1..SpaceEnd(s, 1)] {
        var j := SpaceEnd(s, 1);
        StripKeeps(s[j..], p);
        KeepCons(' ', StripContinuations(s[j..]), p);
        KeepSkip(s, 1, j, p);
      } else {
        StripKeeps(s[1..], p);
        KeepCons(s[0], StripContinuations(s[1..]), p);
      }
    }
  }

  /** Text that `p` rejects throughout adds nothing on either side. */
  lemma KeepAround(x: string, y: string, z: string, p: char -> bool)
    requires forall k :: 0 <= k < |x| ==> !p(x[k])
    requires forall k :: 0 <= k < |z| ==> !p(z[k])
    ensures Keep(x + y + z, p) == Keep(y, p)
  {
    KeepAppend(x + y, z, p);
    KeepAppend(x, y, p);
    KeepSkip(x, 0, |x|, p);
    KeepSkip(z, 0, |z|, p);
    assert x[0..] == x && z[0..] == z;
    assert x[|x|..] == [] && z[|z|..] == [];
  }

  /** Trimming keeps every character above U+0020. */
  lemma TrimKeepsOthers(s: string, p: char -> bool)
    requires forall c :: Text.IsTrimmable(c) ==> !p(c)
    ensures Keep(Text.Trim(s), p) == Keep(s, p)
  {
    var a := Text.LeadingTrimmable(s);
    var r := Text.Trim(s);
    var e := a + |r|;
    assert s == s[..a] + r + s[e..];
    assert forall k :: 0 <= k < a ==> s[..a][k] == s[k];
    assert forall k :: 0 <= k < |s| - e ==> s[e..][k] == s[e + k];
    KeepAround(s[..a], r, s[e..], p);
  }

  // ----- the continuation rewrite as Matcher runs it -----

  /** A continuation starts at `i`: a backslash whose following white-space run holds a newline. */
  predicate ContinuationAt(s: string, i: nat) {
    i < |s| && s[i] == '\\' && '\n' in s[i + 1..SpaceEnd(s, i + 1)]
  }

  /** The leftmost continuation at or after `i`, or `|s|` when there is none (`Matcher.find`). */
  function NextContinuation(s: string, i: nat): (j: nat)
    requires i <= |s|
    ensures i <= j <= |s|
    ensures forall k :: i <= k < j ==> !ContinuationAt(s, k)
    ensures j < |s| ==> ContinuationAt(s, j)
    decreases |s| - i
  {
    if i == |s| || ContinuationAt(s, i) then i else NextContinuation(s, i + 1)
  }

  /**
   * `replaceAll` as Matcher runs it: find the leftmost continuation, copy the
   * text before it, write one space and go on after the match; with no match
   * left, copy the rest.
   */
  function ReplaceContinuations(s: string): (r: string)
    decreases |s|
  {
    var i := NextContinuation(s, 0);
    if i == |s| then s else s[..i] + " " + ReplaceContinuations(s[SpaceEnd(s, i + 1)..])
  }

  lemma SpaceEndShift(s: string, k: nat, m: nat)
    requires k + m <= |s|
    ensures SpaceEnd(s[k..], m) == SpaceEnd(s, k + m) - k
  {
    var e := SpaceEnd(s, k + m);
    assert forall x :: m <= x < e - k ==> s[k..][x] == s[k + x];
    SpaceEndAt(s[k..], m, e - k);
  }

  /** One step of StripContinuations, read at index `k` of `s`. */
  lemma StripAt(s: string, k: nat)
    requires k < |s|
    ensures !ContinuationAt(s, k) ==> StripContinuations(s[k..]) == [s[k]] + StripContinuations(s[k + 1..])
    ensures ContinuationAt(s, k) ==> StripContinuations(s[k..]) == " " + StripContinuations(s[SpaceEnd(s, k + 1)..])
  {
    var t := s[k..];
    SpaceEndShift(s, k, 1);
    assert t[1..SpaceEnd(t, 1)] == s[k + 1..SpaceEnd(s, k + 1)];
    assert t[SpaceEnd(t, 1)..] == s[SpaceEnd(s, k + 1)..];
    assert t[1..] == s[k + 1..];
  }

  /** Characters that start no continuation are copied. */
  lemma {:induction false} StripCopies(s: string, k: nat, i: nat)
    requires k <= i <= |s|
    requires forall m :: k <= m < i ==> !ContinuationAt(s, m)
    ensures StripContinuations(s[k..]) == s[k..i] + StripContinuations(s[i..])
    decreases i - k
  {
    if k < i {
      StripAt(s, k);
      StripCopies(s, k + 1, i);
      SliceCons(s, k, i);
      Regroup3([s[k]], s[k + 1..i], StripContinuations(s[i..]));
    }
  }

  lemma SliceCons(s: string, k: nat, i: nat)
    requires k < i <= |s|
    ensures s[k..i] == [s[k]] + s[k + 1..i]
  {
  }

  /** The recursive rewrite is the Matcher loop, for every input. */
  lemma {:induction false} StripIsReplaceAll(s: string)
    ensures StripContinuations(s) == ReplaceContinuations(s)
    decreases |s|
  {
    var i := NextContinuation(s, 0);
    StripCopiesToNext(s, i);
    if i < |s| {
      var j := SpaceEnd(s, i + 1);
      StripAt(s, i);
      StripIsReplaceAll(s[j..]);
      Regroup(s[..i], StripContinuations(s[j..]));
    } else {
      assert s[i..] == [] && s[..i] == s;
    }
  }

  lemma StripCopiesToNext(s: string, i: nat)
    requires i == NextContinuation(s, 0)
    ensures StripContinuations(s) == s[..i] + StripContinuations(s[i..])
  {
    StripCopies(s, 0, i);
    assert s[0..] == s && s[0..i] == s[..i];
  }

  lemma Regroup(a: string, x: string)
    ensures a + (" " + x) == a + " " + x
  {
  }

  /**
   * No white-space run crosses from `a` into `b` after a backslash: `b`
   * starts with something other than white space, or `a` ends with a
   * visible character.
   */
  predicate Seam(a: string, b: string) {
    |b| == 0 || !Text.IsRegexSpace(b[0]) || (|a| > 0 && Visible(a[|a| - 1]))
  }

  /** Text joined at a seam is rewritten part by part. */
  lemma {:induction false} StripAppend(a: string, b: string)
    requires Seam(a, b)
    ensures StripContinuations(a + b) == StripContinuations(a) + StripContinuations(b)
    decreases |a|
  {
    if |a| == 0 {
      assert a + b == b;
    } else {
      var j, w := StripAppendHead(a, b);
      if j < |a| {
        StripAppend(a[j..], b);
      } else {
        assert a[j..] == [] && a[j..] + b == b;
      }
      Chain(StripContinuations, a, b, a[j..], w);
    }
  }

  /** A first step shared by `f(a)` and `f(a + b)` carries `f(a') + f(b)` over to `f(a) + f(b)`. */
  lemma Chain(f: string -> string, a: string, b: string, a': string, w: string)
    requires f(a) == w + f(a') && f(a + b) == w + f(a' + b)
    requires f(a' + b) == f(a') + f(b)
    ensures f(a + b) == f(a) + f(b)
  {
    assert w + (f(a') + f(b)) == w + f(a') + f(b);
  }

  /**
   * The first step of the rewrite is the same on `a` and on `a + b`: it
   * writes `w` and leaves `a[j..]` and `a[j..] + b`.
   */
  lemma StripAppendHead(a: string, b: string) returns (j: nat, w: string)
    requires Seam(a, b) && |a| > 0
    ensures 0 < j <= |a| && (j < |a| ==> Seam(a[j..], b))
    ensures StripContinuations(a) == w + StripContinuations(a[j..])
    ensures StripContinuations(a + b) == w + StripContinuations(a[j..] + b)
  {
    if ContinuationAt(a, 0) {
      j, w := SpaceEnd(a, 1), " ";
      HeadContinues(a, b);
    } else {
      j, w := 1, [a[0]];
      HeadCopied(a, b);
    }
    if j < |a| {
      assert a[j..][|a[j..]| - 1] == a[|a| - 1];
    }
  }

  lemma HeadContinues(a: string, b: string)
    requires Seam(a, b) && ContinuationAt(a, 0)
    ensures StripContinuations(a) == " " + StripContinuations(a[SpaceEnd(a, 1)..])
    ensures StripContinuations(a + b) == " " + StripContinuations(a[SpaceEnd(a, 1)..] + b)
  {
    var j := SpaceEnd(a, 1);
    assert ContinuationAt(a + b, 0) && SpaceEnd(a + b, 1) == j by {
      SeamSpaceEnd(a, b);
    }
    StripHead(a);
    StripHead(a + b);
    DropAppend(a, b, j);
  }

  lemma HeadCopied(a: string, b: string)
    requires Seam(a, b) && |a| > 0 && !ContinuationAt(a, 0)
    ensures StripContinuations(a) == [a[0]] + StripContinuations(a[1..])
    ensures StripContinuations(a + b) == [a[0]] + StripContinuations(a[1..] + b)
  {
    assert !ContinuationAt(a + b, 0) by {
      if a[0] == '\\' {
        SeamSpaceEnd(a, b);
      }
    }
    StripHead(a + b);
    DropAppend(a, b, 1);
  }

  lemma DropAppend(a: string, b: string, j: nat)
    requires j <= |a|
    ensures (a + b)[j..] == a[j..] + b
  {
  }

  /** One step of StripContinuations at the head. */
  lemma StripHead(s: string)
    requires |s| > 0
    ensures !ContinuationAt(s, 0) ==> StripContinuations(s) == [s[0]] + StripContinuations(s[1..])
    ensures ContinuationAt(s, 0) ==> StripContinuations(s) == " " + StripContinuations(s[SpaceEnd(s, 1)..])
  {
  }

  /** The white-space run after a leading backslash stops at the seam. */
  lemma SeamSpaceEnd(a: string, b: string)
    requires Seam(a, b) && |a| > 0 && a[0] == '\\'
    ensures SpaceEnd(a + b, 1) == SpaceEnd(a, 1)
    ensures (a + b)[1..SpaceEnd(a, 1)] == a[1..SpaceEnd(a, 1)]
    ensures SpaceEnd(a, 1) < |a| || |b| == 0 || !Text.IsRegexSpace(b[0])
  {
    var s := a + b;
    var j := SpaceEnd(a, 1);
    assert forall k :: 1 <= k < j ==> s[k] == a[k];
    if j == |a| && j < |s| {
      assert s[j] == b[0];
      if |a| > 1 {
        assert Text.IsRegexSpace(a[|a| - 1]);
      }
    }
    SpaceEndAt(s, 1, j);
  }

  /**
   * A backslash, a white-space run holding a newline, then a non-space: the
   * continuation becomes one space, whatever text comes before it.
   */
  lemma ContinuationReplaced(p: string, w: string, rest: string)
    requires '\n' in w && forall k :: 0 <= k < |w| ==> Text.IsRegexSpace(w[k])
    requires |rest| > 0 ==> !Text.IsRegexSpace(rest[0])
    ensures StripContinuations(p + "\\" + w + rest) == StripContinuations(p) + " " + StripContinuations(rest)
  {
    StripAppend(p, "\\" + w + rest);
    Regroup4(p, "\\", w, rest);
    ContinuationAtHead(w, rest);
    Regroup3(StripContinuations(p), " ", StripContinuations(rest));
  }

  /** A continuation at the very start becomes one space. */
  lemma ContinuationAtHead(w: string, rest: string)
    requires '\n' in w && forall k :: 0 <= k < |w| ==> Text.IsRegexSpace(w[k])
    requires |rest| > 0 ==> !Text.IsRegexSpace(rest[0])
    ensures StripContinuations("\\" + w + rest) == " " + StripContinuations(rest)
  {
    var s := "\\" + w + rest;
    SpaceEndAt(s, 1, 1 + |w|);
    assert s[1..1 + |w|] == w;
    assert s[1 + |w|..] == rest;
  }

  /** Without a newline nothing is a continuation. */
  lemma {:induction false} StripContinuationsKeeps(s: string)
    requires '\n' !in s
    ensures StripContinuations(s) == s
    decreases |s|
  {
    if |s| > 0 {
      if s[0] == '\\' {
        var j := SpaceEnd(s, 1);
        assert '\n' !in s[1..j] by {
          forall c | c in s[1..j] ensures c != '\n' {
            var x :| 0 <= x < |s[1..j]| && s[1..j][x] == c;
            assert s[1 + x] == c;
          }
        }
      }
      assert '\n' !in s[1..] by {
        forall c | c in s[1..] ensures c != '\n' {
          var x :| 0 <= x < |s[1..]| && s[1..][x] == c;
          assert s[1 + x] == c;
        }
      }
      StripContinuationsKeeps(s[1..]);
      assert [s[0]] + s[1..] == s;
    }
  }

  /** Collapsing already collapsed text changes nothing. */
  lemma {:induction false} CollapseKeeps(s: string)
    requires Collapsed(s)
    ensures Collapse(s) == s
    decreases |s|
  {
    if |s| > 0 {
      assert Collapsed(s[1..]) by {
        forall i | 0 <= i < |s[1..]| - 1 && s[1..][i] == ' ' ensures s[1..][i + 1] != ' ' {
          assert s[i + 1] == ' ';
        }
      }
      CollapseKeeps(s[1..]);
      if Text.IsRegexSpace(s[0]) {
        assert SpaceEnd(s, 0) == 1 by {
          if |s| > 1 {
            assert !Text.IsRegexSpace(s[1]);
          }
        }
      }
      assert [s[0]] + s[1..] == s;
    }
  }

  /** Normalised text is a fixed point, so normalising twice is normalising once. */
  lemma NormalizeKeeps(s: string)
    requires Normalized(s)
    ensures Normalize(s) == s
  {
    StripContinuationsKeeps(s);
    CollapseKeeps(s);
    Text.TrimKeeps(s);
  }

  lemma NormalizeIdempotent(s: string)
    ensures Normalize(Normalize(s)) == Normalize(s)
  {
    NormalizeKeeps(Normalize(s));
  }

  // ----- what normalisation does between two words -----

  /** The state CollapseFrom is in after reading `x` from state `f`. */
  function AfterRead(x: string, f: bool): bool {
    if |x| == 0 then f else Text.IsRegexSpace(x[|x| - 1])
  }

  /** The character-by-character collapse reads a concatenation part by part. */
  lemma {:induction false} CollapseFromAppend(x: string, y: string, f: bool)
    ensures CollapseFrom(x + y, f) == CollapseFrom(x, f) + CollapseFrom(y, AfterRead(x, f))
    decreases |x|
  {
    if |x| == 0 {
      assert x + y == y;
    } else {
      var g := Text.IsRegexSpace(x[0]);
      var h := if g then (if f then "" else " ") else [x[0]];
      DropAppend(x, y, 1);
      assert CollapseFrom(x + y, f) == h + CollapseFrom(x[1..] + y, g);
      assert CollapseFrom(x, f) == h + CollapseFrom(x[1..], g);
      CollapseFromAppend(x[1..], y, g);
      assert AfterRead(x[1..], g) == AfterRead(x, f);
      Regroup3(h, CollapseFrom(x[1..], g), CollapseFrom(y, AfterRead(x, f)));
    }
  }

  lemma Regroup4(p: string, q: string, w: string, r: string)
    ensures p + q + w + r == p + (q + w + r)
  {
  }

  lemma Regroup3(x: string, y: string, z: string)
    ensures x + (y + z) == x + y + z
  {
  }

  /** Text that starts with a character other than white space collapses the same from either state. */
  lemma CollapseFromWord(z: string, f: bool)
    requires |z| > 0 && !Text.IsRegexSpace(z[0])
    ensures CollapseFrom(z, f) == CollapseFrom(z, false)
  {
  }

  /** Text ending in a visible character keeps it last through the continuation rewrite. */
  lemma {:induction false} StripLast(a: string)
    requires |a| > 0 && Visible(a[|a| - 1])
    ensures var x := StripContinuations(a); |x| > 0 && x[|x| - 1] == a[|a| - 1]
    decreases |a|
  {
    StripHead(a);
    var j := if ContinuationAt(a, 0) then SpaceEnd(a, 1) else 1;
    if j < |a| {
      assert a[j..][|a[j..]| - 1] == a[|a| - 1];
      StripLast(a[j..]);
    } else {
      assert a[j..] == [];
    }
  }

  /** Text ending in a visible character keeps it last through the collapse. */
  lemma {:induction false} CollapseFromLast(x: string, f: bool)
    requires |x| > 0 && Visible(x[|x| - 1])
    ensures var c := CollapseFrom(x, f); |c| > 0 && c[|c| - 1] == x[|x| - 1]
    decreases |x|
  {
    if |x| == 1 {
      assert x[1..] == [];
    } else {
      assert x[1..][|x[1..]| - 1] == x[|x| - 1];
      CollapseFromLast(x[1..], Text.IsRegexSpace(x[0]));
    }
  }

  /** Collapsing text whose middle sits between two words collapses each part on its own. */
  lemma CollapseJoin(x: string, y: string, z: string)
    requires |x| > 0 && Visible(x[|x| - 1])
    requires |z| > 0 && Visible(z[0])
    ensures Collapse(x + y + z) == Collapse(x) + Collapse(y) + Collapse(z)
  {
    CollapseIsStepwise(x + y + z);
    CollapseIsStepwise(x);
    CollapseIsStepwise(y);
    CollapseIsStepwise(z);
    Regroup3(x, y, z);
    assert AfterRead(x, false) == false;
    CollapseFromAppend(x, y + z, false);
    CollapseFromAppend(y, z, false);
    CollapseFromWord(z, AfterRead(y, false));
    Regroup3(CollapseFrom(x, false), CollapseFrom(y, false), CollapseFrom(z, false));
  }

  /**
   * Whatever separates two words, the words are normalised on their own and
   * the separator becomes what its own rewrite and collapse make of it.
   */
  lemma NormalizeJoin(a: string, m: string, b: string)
    requires |a| > 0 && Visible(a[|a| - 1])
    requires |b| > 0 && Visible(b[0])
    ensures Normalize(a + m + b) == Normalize(a) + Collapse(StripContinuations(m)) + Normalize(b)
  {
    StripJoin(a, m, b);
    StripLast(a);
    StripHead(b);
    NormalizeOfParts(a + m + b, StripContinuations(a), StripContinuations(m), StripContinuations(b));
  }

  /** The rewrite takes the words and the separator apart. */
  lemma StripJoin(a: string, m: string, b: string)
    requires |a| > 0 && Visible(a[|a| - 1])
    requires |b| > 0 && Visible(b[0])
    ensures StripContinuations(a + m + b) == StripContinuations(a) + StripContinuations(m) + StripContinuations(b)
  {
    StripAppend(a, m + b);
    StripAppend(m, b);
    Regroup3(a, m, b);
    Regroup3(StripContinuations(a), StripContinuations(m), StripContinuations(b));
  }

  /** Collapsing and trimming rewritten text that splits between two words. */
  lemma NormalizeOfParts(s: string, x: string, y: string, z: string)
    requires StripContinuations(s) == x + y + z
    requires |x| > 0 && Visible(x[|x| - 1])
    requires |z| > 0 && Visible(z[0])
    ensures Normalize(s) == Text.Trim(Collapse(x)) + Collapse(y) + Text.Trim(Collapse(z))
  {
    CollapseJoin(x, y, z);
    CollapseIsStepwise(x);
    CollapseFromLast(x, false);
    CollapseIsStepwise(z);
    Text.TrimJoin(Collapse(x), Collapse(y), Collapse(z));
  }

  /** Text without a backslash holds no continuation. */
  lemma {:induction false} StripNoBackslash(s: string)
    requires '\\' !in s
    ensures StripContinuations(s) == s
    decreases |s|
  {
    if |s| > 0 {
      StripHead(s);
      assert '\\' !in s[1..] by {
        forall k | 0 <= k < |s[1..]| ensures s[1..][k] != '\\' {
          assert s[1..][k] == s[k + 1];
        }
      }
      StripNoBackslash(s[1..]);
      assert [s[0]] + s[1..] == s;
    }
  }

  /** A white-space run collapses to one space. */
  lemma CollapseRun(w: string)
    requires |w| > 0 && forall k :: 0 <= k < |w| ==> Text.IsRegexSpace(w[k])
    ensures Collapse(w) == " "
  {
    SpaceEndAt(w, 0, |w|);
    assert w[|w|..] == [];
  }

  /** Words separated by a white-space run come out separated by exactly one space. */
  lemma SpaceBetweenWords(a: string, w: string, b: string)
    requires |a| > 0 && Visible(a[|a| - 1])
    requires |b| > 0 && Visible(b[0])
    requires |w| > 0 && forall k :: 0 <= k < |w| ==> Text.IsRegexSpace(w[k])
    ensures Normalize(a + w + b) == Normalize(a) + " " + Normalize(b)
  {
    NormalizeJoin(a, w, b);
    SpaceRun(w);
  }

  lemma SpaceRun(w: string)
    requires |w| > 0 && forall k :: 0 <= k < |w| ==> Text.IsRegexSpace(w[k])
    ensures Collapse(StripContinuations(w)) == " "
  {
    StripNoBackslash(w);
    CollapseRun(w);
  }

  /** Words separated by a line continuation come out separated by exactly one space. */
  lemma ContinuationBetweenWords(a: string, w: string, b: string)
    requires |a| > 0 && Visible(a[|a| - 1])
    requires |b| > 0 && Visible(b[0])
    requires '\n' in w && forall k :: 0 <= k < |w| ==> Text.IsRegexSpace(w[k])
    ensures Normalize(a + ("\\" + w) + b) == Normalize(a) + " " + Normalize(b)
  {
    NormalizeJoin(a, "\\" + w, b);
    ContinuationRun(w);
  }

  lemma ContinuationRun(w: string)
    requires '\n' in w && forall k :: 0 <= k < |w| ==> Text.IsRegexSpace(w[k])
    ensures Collapse(StripContinuations("\\" + w)) == " "
  {
    ContinuationAtHead(w, "");
    assert "\\" + w + "" == "\\" + w;
    CollapseRun(" ");
  }

  /**
   * A backslash whose following white space holds no newline starts no
   * continuation: it stays, and the white space after it becomes at most one space.
   */
  lemma BackslashKept(a: string, w: string, b: string)
    requires |a| > 0 && Visible(a[|a| - 1])
    requires |b| > 0 && Visible(b[0])
    requires '\n' !in w && forall k :: 0 <= k < |w| ==> Text.IsRegexSpace(w[k])
    ensures Normalize(a + ("\\" + w) + b) == Normalize(a) + (if |w| == 0 then "\\" else "\\ ") + Normalize(b)
  {
    NormalizeJoin(a, "\\" + w, b);
    BackslashRun(w);
  }

  lemma BackslashRun(w: string)
    requires '\n' !in w && forall k :: 0 <= k < |w| ==> Text.IsRegexSpace(w[k])
    ensures Collapse(StripContinuations("\\" + w)) == if |w| == 0 then "\\" else "\\ "
  {
    var m := "\\" + w;
    assert '\n' !in m;
    StripContinuationsKeeps(m);
    CollapseAfterBackslash(w);
    if |w| > 0 {
      CollapseRun(w);
    } else {
      assert Collapse(w) == "";
    }
  }

  lemma CollapseAfterBackslash(w: string)
    ensures Collapse("\\" + w) == "\\" + Collapse(w)
  {
    assert ("\\" + w)[1..] == w;
  }

  /** Two spaces between one-letter words become one. */
  lemma NormalizeSpacesExample(x: char, y: char)
    requires Visible(x) && Visible(y)
    ensures Normalize([x] + "  " + [y]) == [x, ' ', y]
  {
    LettersKept(x, y);
    SpaceBetweenWords([x], "  ", [y]);
  }

  /** A backslash right before a word is not a continuation and stays. */
  lemma NormalizeBackslashExample(x: char, y: char)
    requires Visible(x) && Visible(y)
    ensures Normalize([x, '\\', y]) == [x, '\\', y]
  {
    LettersKept(x, y);
    BackslashKept([x], "", [y]);
    assert [x] + ("\\" + "") + [y] == [x, '\\', y];
  }

  /** A backslash, a newline and indentation between words become one space. */
  lemma NormalizeContinuationExample(x: char, y: char)
    requires Visible(x) && Visible(y)
    ensures Normalize([x] + "\\\n  " + [y]) == [x, ' ', y]
  {
    LettersKept(x, y);
    ContinuationBetweenWords([x], "\n  ", [y]);
    assert "\\" + "\n  " == "\\\n  ";
  }

  lemma LettersKept(x: char, y: char)
    requires Visible(x) && Visible(y)
    ensures Normalize([x]) == [x] && Normalize([y]) == [y]
  {
    NormalizeKeeps([x]);
    NormalizeKeeps([y]);
  }
}

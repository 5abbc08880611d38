/**
 * CallOutputFrame: the display window's own helpers, a second copy of the
 * placeholder substitution, the JSON content-type test and the
 * pretty-printing of the body part of a formatted response.
 */
module CallOutputFrame {
  import opened Wrappers
  import Text
  import Json
  import Substitution

  // ----- the second substituteVariables -----

  /**
   * The substitution written as a direct scan: at each position either the
   * pattern matches (the key's value, or the placeholder kept) or one
   * character is copied.
   */
  function Substituted(s: string, vars: map<string, string>): string
    decreases |s|
  {
    if |s| == 0 then ""
    else
      match Substitution.PlaceholderKey(s)
      case Some(k) =>
        (if k in vars then vars[k] else s[..|k| + 4]) + Substituted(s[|k| + 4..], vars)
      case None => [s[0]] + Substituted(s[1..], vars)
  }

  /** substituteVariables: a null text or a null map gives the text back. */
  function SubstituteVariables(input: Option<string>, vars: Option<map<string, string>>): (r: Option<string>)
    ensures input.None? ==> r.None?
    ensures input.Some? && vars.None? ==> r == input
    ensures input.Some? && vars.Some? ==> r.Some?
  {
    if input.None? || vars.None? then input else Some(Substituted(input.value, vars.value))
  }

  lemma ExpandCons(t: Substitution.Token, ts: seq<Substitution.Token>, vars: map<string, string>)
    ensures Substitution.Expand([t] + ts, vars) == Substitution.Replacement(t, vars) + Substitution.Expand(ts, vars)
  {
    assert ([t] + ts)[0] == t && ([t] + ts)[1..] == ts;
  }

  /** One step of the direct scan is one token of the tokenizer. */
  lemma ResolveStep(s: string, vars: map<string, string>)
    requires |s| > 0
    ensures Substitution.PlaceholderKey(s).Some? ==>
      var k := Substitution.PlaceholderKey(s).value;
      Substitution.Resolve(s, vars) == (if k in vars then vars[k] else s[..|k| + 4]) + Substitution.Resolve(s[|k| + 4..], vars)
    ensures Substitution.PlaceholderKey(s).None? ==>
      Substitution.Resolve(s, vars) == [s[0]] + Substitution.Resolve(s[1..], vars)
  {
    var pk := Substitution.PlaceholderKey(s);
    if pk.Some? {
      var k := pk.value;
      ExpandCons(Substitution.Placeholder(k), Substitution.Tokenize(s[|k| + 4..]), vars);
    } else {
      ExpandCons(Substitution.Char(s[0]), Substitution.Tokenize(s[1..]), vars);
    }
  }

  /** The direct scan replaces exactly the placeholders the tokenizer finds. */
  lemma {:induction false} SubstitutedIsResolve(s: string, vars: map<string, string>)
    ensures Substituted(s, vars) == Substitution.Resolve(s, vars)
    decreases |s|
  {
    if |s| > 0 {
      ResolveStep(s, vars);
      var pk := Substitution.PlaceholderKey(s);
      if pk.Some? {
        SubstitutedIsResolve(s[|pk.value| + 4..], vars);
      } else {
        SubstitutedIsResolve(s[1..], vars);
      }
    }
  }

  /** Both copies compute the same function, null passthrough included. */
  lemma SameAsService(input: Option<string>, vars: Option<map<string, string>>)
    ensures SubstituteVariables(input, vars) ==
      if input.None? || vars.None? then input else Some(Substitution.Resolve(input.value, vars.value))
  {
    if input.Some? && vars.Some? {
      SubstitutedIsResolve(input.value, vars.value);
    }
  }

  // ----- isJsonContentType -----

  /** isJsonContentType: the lower-cased text names a content type, and a JSON one. */
  predicate IsJsonContentType(response: Option<string>) {
    match response
    case None => false
    case Some(s) =>
      var lower := Text.Lower(s);
      Text.Contains(lower, "content-type:")
      && (Text.Contains(lower, "application/json") || Text.Contains(lower, "application/vnd.api+json"))
  }

  /** The test ignores case. */
  lemma JsonContentTypeIgnoresCase(s: string)
    ensures IsJsonContentType(Some(s)) == IsJsonContentType(Some(Text.Lower(s)))
  {
    assert Text.Lower(Text.Lower(s)) == Text.Lower(s);
  }

  /** No response text is JSON, and neither is a bare media type without a `content-type:` header name. */
  lemma BareMediaTypeNotJson()
    ensures !IsJsonContentType(None)
    ensures !IsJsonContentType(Some("application/json"))
  {
    var s := "application/json";
    assert Text.Lower(s) == s;
    forall k | 0 <= k && k + 13 <= |s| ensures !Text.OccursAt(s, "content-type:", k) {
      assert s[k..k + 13][0] == s[k] != 'c';
    }
    Text.ContainsIff(s, "content-type:");
  }

  /** Lower-casing a concatenation lower-cases each part. */
  lemma LowerAppend(a: string, b: string)
    ensures Text.Lower(a + b) == Text.Lower(a) + Text.Lower(b)
  {
  }

  /** `t` occurring in lower-cased text is found by `contains`. */
  lemma ContainsAt(s: string, t: string, i: nat)
    requires Text.OccursAt(s, t, i)
    ensures Text.Contains(s, t)
  {
    Text.ContainsIff(s, t);
  }

  /** `t` occurs between `a` and `b`, and `contains` finds it. */
  lemma ContainsMiddle(a: string, t: string, b: string)
    ensures Text.Contains(a + t + b, t)
  {
    assert (a + t + b)[|a|..|a| + |t|] == t;
    ContainsAt(a + t + b, t, |a|);
  }

  // Step of JsonHeaderLine.
  lemma LowerAroundHeader(before: string, after: string)
    ensures Text.Lower(before + "Content-Type: application/json" + after)
      == Text.Lower(before) + "content-type: application/json" + Text.Lower(after)
  {
    assert Text.Lower("Content-Type: application/json") == "content-type: application/json";
    LowerAppend(before, "Content-Type: application/json");
    LowerAppend(before + "Content-Type: application/json", after);
  }

  /** A response carrying a JSON content-type header line, in any letter case, is JSON. */
  lemma JsonHeaderLine(before: string, after: string)
    ensures IsJsonContentType(Some(before + "Content-Type: application/json" + after))
  {
    var lb := Text.Lower(before);
    var la := Text.Lower(after);
    var line := "content-type: application/json";
    LowerAroundHeader(before, after);
    assert lb + line + la == lb + "content-type:" + (" application/json" + la) by {
      assert line == "content-type:" + " application/json";
    }
    assert lb + line + la == (lb + "content-type: ") + "application/json" + la by {
      assert line == "content-type: " + "application/json";
    }
    ContainsMiddle(lb, "content-type:", " application/json" + la);
    ContainsMiddle(lb + "content-type: ", "application/json", la);
  }

  // ----- prettyPrintJson -----

  const Marker := "Response Body:\n"

  /** The body part is left alone when it is empty or one of the placeholder texts formatResponse writes. */
  predicate Unprintable(body: string) {
    body == "" || Text.StartsWith(body, "(Empty") || Text.StartsWith(body, "Error:")
  }

  /** The trimmed text after the marker found at `i`. */
  function BodyAfter(s: string, i: nat): string
    requires i + |Marker| <= |s|
  {
    Text.Trim(s[i + |Marker|..])
  }

  /**
   * prettyPrintJson on a non-null response: the text after the first marker,
   * trimmed, replaced by its pretty-printed form; the text itself when there
   * is no marker, when the body is unprintable, or when it does not parse.
   */
  function PrettyText(s: string, gson: Json.Gson): (r: string)
    ensures !Text.Contains(s, Marker) ==> r == s
    ensures r != s ==>
      var i := Text.IndexOf(s, Marker);
      && 0 <= i && i + |Marker| <= |s|
      && !Unprintable(BodyAfter(s, i))
      && gson.parse(BodyAfter(s, i)).Some?
      && r == s[..i] + Marker + gson.pretty(gson.parse(BodyAfter(s, i)).value)
    ensures Text.Contains(s, Marker) ==>
      var i := Text.IndexOf(s, Marker);
      && 0 <= i && i + |Marker| <= |s|
      && (!Unprintable(BodyAfter(s, i)) && gson.parse(BodyAfter(s, i)).Some? ==>
            r == s[..i] + Marker + gson.pretty(gson.parse(BodyAfter(s, i)).value))
  {
    if s == "" then s
    else
      var i := Text.IndexOf(s, Marker);
      if i < 0 then s
      else
        var body := BodyAfter(s, i);
        if Unprintable(body) then s
        else
          match gson.parse(body)
          case None => s
          case Some(j) => s[..i] + Marker + gson.pretty(j)
  }

  /** prettyPrintJson: null stays null. */
  function PrettyPrintJson(response: Option<string>, gson: Json.Gson): (r: Option<string>)
    ensures response.None? <==> r.None?
    ensures response.Some? ==> r.value == PrettyText(response.value, gson)
  {
    match response
    case None => None
    case Some(s) => Some(PrettyText(s, gson))
  }

  /** A response whose body part is an error text is shown as it is. */
  lemma ErrorBodyUnchanged(head: string, rest: string, gson: Json.Gson)
    requires !Text.Contains(head, Marker)
    ensures PrettyText(head + Marker + "Error: " + rest, gson) == head + Marker + "Error: " + rest
  {
    var s := head + Marker + "Error: " + rest;
    var tail := "Error: " + rest;
    assert s == head + Marker + tail;
    MarkerFirstAfter(head, tail);
    assert s[|head| + |Marker|..] == tail;
    ErrorTextUnprintable(rest);
  }

  /** A response whose body part parses is shown with the body pretty-printed and the head kept. */
  lemma JsonBodyPrettyPrinted(head: string, body: string, gson: Json.Gson)
    requires !Text.Contains(head, Marker)
    requires |body| > 0 && !Text.IsTrimmable(body[0]) && !Text.IsTrimmable(body[|body| - 1])
    requires !Unprintable(body) && gson.parse(body).Some?
    ensures PrettyText(head + Marker + body, gson) == head + Marker + gson.pretty(gson.parse(body).value)
  {
    var s := head + Marker + body;
    MarkerFirstAfter(head, body);
    assert s[|head| + |Marker|..] == body;
    assert s[..|head|] == head;
    Text.TrimKeeps(body);
    Text.ContainsIff(s, Marker);
    assert Text.OccursAt(s, Marker, |head|);
  }

  /** The first marker in `head + Marker + tail` is the one after `head` when `head` has none. */
  lemma MarkerFirstAfter(head: string, tail: string)
    requires !Text.Contains(head, Marker)
    ensures Text.IndexOf(head + Marker + tail, Marker) == |head|
  {
    var s := head + Marker + tail;
    var i := |head|;
    assert s[i..i + |Marker|] == Marker;
    assert Text.OccursAt(s, Marker, i);
    Text.ContainsIff(head, Marker);
    forall k | 0 <= k < i ensures !Text.OccursAt(s, Marker, k) {
      if k + |Marker| <= |head| {
        assert !Text.OccursAt(head, Marker, k);
        assert head[k..k + |Marker|] == s[k..k + |Marker|];
      } else {
        // the marker's only newline is its last character, so it cannot overlap itself
        assert s[k + 14] == Marker[k + 14 - i];
        assert Marker[k + 14 - i] != '\n' && Marker[14] == '\n';
        assert k + |Marker| <= |s| ==> s[k..k + |Marker|][14] != Marker[14];
      }
    }
  }

  /** A body part that starts with the error text stays unprintable after trimming. */
  lemma ErrorTextUnprintable(rest: string)
    ensures Unprintable(Text.Trim("Error: " + rest))
  {
    var tail := "Error: " + rest;
    assert tail[..6] == "Error:";
    var body := Text.Trim(tail);
    assert Text.LeadingTrimmable(tail) == 0;
    assert !Text.IsTrimmable(tail[5]);
    assert |body| >= 6;
    assert body[..6] == tail[..6];
  }

}

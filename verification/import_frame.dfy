/**
 * ImportFrame: the HAR import dialog's own converter for one chosen entry,
 * which differs from HarParser (browser headers filtered, no form
 * parameters, "body" as the fallback key, the file name as the call name).
 */
module ImportFrame {
  import opened Wrappers
  import Text
  import Pairs
  import Scan
  import Json
  import Model
  import HarParser

  /** Header names a browser adds that are not copied, compared in lower case. */
  const BrowserHeaders: set<string> := {
    "host", "user-agent", "accept-encoding", "connection", "referer", "origin",
    "dnt", "priority", "pragma", "cache-control", "te", "content-length"
  }

  /** shouldSkipHeader. */
  predicate ShouldSkipHeader(name: string) {
    var lower := Text.Lower(name);
    lower in BrowserHeaders || Text.StartsWith(lower, "sec-")
  }

  predicate Kept(name: string) { !ShouldSkipHeader(name) }

  /** Lower-casing twice changes nothing more. */
  lemma LowerIdempotent(s: string)
    ensures Text.Lower(Text.Lower(s)) == Text.Lower(s)
  {
  }

  /** The filter ignores case: a name and its lower-cased form are skipped alike. */
  lemma SkipIgnoresCase(name: string)
    ensures ShouldSkipHeader(name) == ShouldSkipHeader(Text.Lower(name))
  {
    LowerIdempotent(name);
  }

  /** Every `sec-` header is skipped, whatever the case of its prefix. */
  lemma SecPrefixSkipped(rest: string)
    ensures ShouldSkipHeader("Sec-" + rest) && ShouldSkipHeader("SEC-" + rest)
  {
    var a := Text.Lower("Sec-" + rest);
    var b := Text.Lower("SEC-" + rest);
    assert a[..4] == "sec-" by { assert a[0] == 's' && a[1] == 'e' && a[2] == 'c' && a[3] == '-'; }
    assert b[..4] == "sec-" by { assert b[0] == 's' && b[1] == 'e' && b[2] == 'c' && b[3] == '-'; }
  }

  /** The browser's own headers are skipped in any case; the headers a call needs are kept. */
  lemma SkippedAndKept()
    ensures ShouldSkipHeader("User-Agent") && ShouldSkipHeader("HOST") && ShouldSkipHeader("Content-Length")
    ensures Kept("Content-Type") && Kept("Authorization") && Kept("Accept")
  {
    assert Text.Lower("User-Agent") == "user-agent";
    assert Text.Lower("HOST") == "host";
    assert Text.Lower("Content-Length") == "content-length";
    assert Text.Lower("Content-Type") == "content-type" && "content-type"[..4][0] != 's';
    assert Text.Lower("Authorization") == "authorization" && "authorization"[..4][0] != 's';
    assert Text.Lower("Accept") == "accept" && "accept"[..4][0] != 's';
  }

  /** A header object whose `name` and `value` are both required strings. */
  function ReadHeader(j: Json.Json): (r: Option<(string, string)>)
    ensures r.Some? ==> j.JObject? && Json.Has(j.members, "name") && Json.Has(j.members, "value")
  {
    var o :- Json.AsObject(j);
    var n :- Json.GetString(o, "name");
    var v :- Json.GetString(o, "value");
    Some((n, v))
  }

  // ----- the body -----

  /**
   * The member loop `body.put(key, value.getAsString())` up to the first member
   * whose getAsString throws: the pairs put, and whether every member was put.
   */
  function StringMembers(es: Json.Members): (r: (seq<(string, string)>, bool))
    ensures |r.0| <= |es|
    ensures forall i :: 0 <= i < |r.0| ==> Json.AsString(es[i].1).Some? && r.0[i] == (es[i].0, Json.AsString(es[i].1).value)
    ensures r.1 <==> |r.0| == |es|
    ensures !r.1 ==> Json.AsString(es[|r.0|].1).None?
    decreases |es|
  {
    if |es| == 0 then ([], true)
    else
      match Json.AsString(es[0].1)
      case None => ([], false)
      case Some(v) =>
        var rest := StringMembers(es[1..]);
        ([(es[0].0, v)] + rest.0, rest.1)
  }

  /**
   * `postData.text`: the members of the parsed object, each by getAsString; if
   * parsing fails, or a member has no string form, the pairs put so far stay
   * and "body" maps to the raw text.
   */
  function TextBody(text: string, gson: Json.Gson): (r: map<string, string>)
    ensures !(gson.parse(text).Some? && gson.parse(text).value.JObject?) ==> r == map["body" := text]
  {
    var parsed := gson.parse(text);
    if parsed.Some? && parsed.value.JObject? then
      var put := StringMembers(Json.Entries(parsed.value.members));
      if put.1 then Pairs.ToMap(put.0) else Pairs.ToMap(put.0)["body" := text]
    else map["body" := text]
  }

  /** Every member with a string form: the body is the object's members by their strings. */
  lemma TextBodyComplete(text: string, gson: Json.Gson)
    requires gson.parse(text).Some? && gson.parse(text).value.JObject?
    requires forall k :: Pairs.HasKey(gson.parse(text).value.members, k) ==>
      Json.AsString(Json.Get(gson.parse(text).value.members, k).value).Some?
    ensures forall k :: k in TextBody(text, gson) <==> Pairs.HasKey(gson.parse(text).value.members, k)
    ensures forall k :: k in TextBody(text, gson) ==>
      TextBody(text, gson)[k] == Json.AsString(Json.Get(gson.parse(text).value.members, k).value).value
  {
    var ms := gson.parse(text).value.members;
    var es := Json.Entries(ms);
    AllMembersPut(ms, es);
    TextBodyOfObject(text, gson, es);
    BodyOfMembers(ms, es, StringMembers(es).0, TextBody(text, gson));
  }

  /** The body of a parsed object, in terms of the member loop over its entries. */
  lemma TextBodyOfObject(text: string, gson: Json.Gson, es: Json.Members)
    requires gson.parse(text).Some? && gson.parse(text).value.JObject?
    requires es == Json.Entries(gson.parse(text).value.members)
    ensures TextBody(text, gson) ==
      if StringMembers(es).1 then Pairs.ToMap(StringMembers(es).0)
      else Pairs.ToMap(StringMembers(es).0)["body" := text]
  {
  }

  /** When every key's value has a string form, the member loop puts every entry. */
  lemma AllMembersPut(ms: Json.Members, es: Json.Members)
    requires forall k :: Pairs.HasKey(ms, k) ==> Json.AsString(Json.Get(ms, k).value).Some?
    requires forall i :: 0 <= i < |es| ==> Json.Get(ms, es[i].0) == Some(es[i].1)
    ensures StringMembers(es).1
  {
  }

  /** A map put from every entry, each by its string form, holds exactly the object's keys with their strings. */
  lemma BodyOfMembers(ms: Json.Members, es: Json.Members, put: seq<(string, string)>, body: map<string, string>)
    requires forall k :: Pairs.HasKey(es, k) <==> Pairs.HasKey(ms, k)
    requires forall i :: 0 <= i < |es| ==> Json.Get(ms, es[i].0) == Some(es[i].1)
    requires |put| == |es|
    requires forall i :: 0 <= i < |put| ==> Json.AsString(es[i].1).Some? && put[i] == (es[i].0, Json.AsString(es[i].1).value)
    requires body == Pairs.ToMap(put)
    ensures forall k :: k in body <==> Pairs.HasKey(ms, k)
    ensures forall k :: k in body ==> body[k] == Json.AsString(Json.Get(ms, k).value).value
  {
    forall k | k in body ensures Pairs.HasKey(ms, k) {
      var i :| 0 <= i < |put| && put[i].0 == k;
      assert Pairs.HasKey(es, es[i].0);
    }
    forall k | Pairs.HasKey(ms, k) ensures k in body {
      var i :| 0 <= i < |es| && es[i].0 == k;
      assert put[i].0 == k;
    }
    forall k | k in body ensures body[k] == Json.AsString(Json.Get(ms, k).value).value {
      var i :| 0 <= i < |put| && put[i] == (k, body[k]);
      assert es[i].0 == k;
    }
  }

  /** A member without a string form: the raw text is kept under "body", next to the members put before it. */
  lemma TextBodyFallback(text: string, gson: Json.Gson)
    requires gson.parse(text).Some? && gson.parse(text).value.JObject?
    requires !StringMembers(Json.Entries(gson.parse(text).value.members)).1
    ensures "body" in TextBody(text, gson) && TextBody(text, gson)["body"] == text
    ensures var es := Json.Entries(gson.parse(text).value.members); var body := TextBody(text, gson);
      forall k :: k in body && k != "body" ==>
        exists i :: 0 <= i < |es| && es[i].0 == k && Json.AsString(es[i].1) == Some(body[k])
  {
    var es := Json.Entries(gson.parse(text).value.members);
    TextBodyOfObject(text, gson, es);
    PutFromEntry(es, StringMembers(es).0, TextBody(text, gson), text);
  }

  /** A member without a string form: every pair put before it stays, with its own value unless its key is "body". */
  lemma TextBodyFallbackKeeps(text: string, gson: Json.Gson)
    requires gson.parse(text).Some? && gson.parse(text).value.JObject?
    requires !StringMembers(Json.Entries(gson.parse(text).value.members)).1
    ensures var put := StringMembers(Json.Entries(gson.parse(text).value.members)).0; var body := TextBody(text, gson);
      forall i :: 0 <= i < |put| ==> put[i].0 in body && (put[i].0 != "body" ==> body[put[i].0] == put[i].1)
  {
    var es := Json.Entries(gson.parse(text).value.members);
    var put := StringMembers(es).0;
    assert forall i :: 0 <= i < |put| ==> put[i].0 == es[i].0;
    assert TextBody(text, gson) == Pairs.ToMap(put)["body" := text] by {
      TextBodyOfObject(text, gson, es);
    }
    PutKept(es, put, TextBody(text, gson), text);
  }

  /** Pairs read off entries with distinct keys each stay in the map, under their own value unless the key is "body". */
  lemma PutKept(es: Json.Members, put: seq<(string, string)>, body: map<string, string>, text: string)
    requires Pairs.DistinctKeys(es) && |put| <= |es|
    requires forall i :: 0 <= i < |put| ==> put[i].0 == es[i].0
    requires body == Pairs.ToMap(put)["body" := text]
    ensures forall i :: 0 <= i < |put| ==> put[i].0 in body && (put[i].0 != "body" ==> body[put[i].0] == put[i].1)
  {
    var m := Pairs.ToMap(put);
    forall i | 0 <= i < |put| ensures put[i].0 in m && m[put[i].0] == put[i].1 {
      PutIsLast(es, put, i);
      Pairs.ToMapLastWins(put, i);
    }
  }

  lemma PutIsLast(es: Json.Members, put: seq<(string, string)>, i: int)
    requires Pairs.DistinctKeys(es) && |put| <= |es|
    requires forall i :: 0 <= i < |put| ==> put[i].0 == es[i].0
    requires 0 <= i < |put|
    ensures Pairs.IsLast(put, i)
  {
    forall j | i < j < |put| ensures put[j].0 != put[i].0 {
      assert es[j].0 != es[i].0;
    }
  }

  /** Each key other than "body" put from pairs read off the entries comes from an entry whose string form is its value. */
  lemma PutFromEntry(es: Json.Members, put: seq<(string, string)>, body: map<string, string>, text: string)
    requires |put| <= |es|
    requires forall i :: 0 <= i < |put| ==> Json.AsString(es[i].1).Some? && put[i] == (es[i].0, Json.AsString(es[i].1).value)
    requires body == Pairs.ToMap(put)["body" := text]
    ensures forall k :: k in body && k != "body" ==> exists i :: 0 <= i < |es| && es[i].0 == k && Json.AsString(es[i].1) == Some(body[k])
  {
    var m := Pairs.ToMap(put);
    forall k | k in body && k != "body" ensures exists i :: 0 <= i < |es| && es[i].0 == k && Json.AsString(es[i].1) == Some(body[k]) {
      var i :| 0 <= i < |put| && put[i] == (k, m[k]);
      assert es[i].0 == k && Json.AsString(es[i].1) == Some(body[k]);
    }
  }


  // ----- the request -----

  /**
   * convertHarToApiCall: `method` and `url` are required strings, headers are
   * filtered, the body comes from `postData.text` only. None when a read throws.
   */
  function ConvertHarToApiCall(name: string, request: Json.Members, gson: Json.Gson): (r: Option<Model.ApiCall>)
    ensures r.Some? ==> r.value.name == Some(name) && r.value.group.None?
    ensures r.Some? ==> Some(r.value.url) == Json.GetString(request, "url")
    ensures r.Some? ==> Some(r.value.httpMethod) == Json.GetString(request, "method")
    ensures r.Some? && !Json.Has(request, "headers") ==> r.value.headers == map[]
    ensures r.Some? && !Json.Has(request, "postData") ==> r.value.body == map[]
  {
    var verb :- Json.GetString(request, "method");
    var url :- Json.GetString(request, "url");
    var headers :- if Json.Has(request, "headers") then
        var items :- Json.GetArray(request, "headers");
        HarParser.PutAll(items, ReadHeader, Kept)
      else Some(map[]);
    var body :- if Json.Has(request, "postData") then
        var postData :- Json.GetObject(request, "postData");
        if Json.Has(postData, "text") then
          var text :- Json.GetString(postData, "text");
          Some(TextBody(text, gson))
        else Some(map[])
      else Some(map[]);
    Some(Model.ApiCall(Some(name), url, verb, headers, body, None))
  }

  /** The converted headers are exactly the names no browser filter catches, with the last duplicate's value. */
  lemma ConvertedHeaders(name: string, request: Json.Members, gson: Json.Gson, items: seq<Json.Json>)
    requires Json.GetArray(request, "headers") == Some(items)
    requires ConvertHarToApiCall(name, request, gson).Some?
    ensures forall k :: k in ConvertHarToApiCall(name, request, gson).value.headers <==>
      Kept(k) && HarParser.NameRead(items, ReadHeader, k)
    ensures forall i :: HarParser.LastRead(items, i, ReadHeader) && Kept(ReadHeader(items[i]).value.0) ==>
      ReadHeader(items[i]).value.0 in ConvertHarToApiCall(name, request, gson).value.headers
      && ConvertHarToApiCall(name, request, gson).value.headers[ReadHeader(items[i]).value.0] == ReadHeader(items[i]).value.1
  {
    var headers := ConvertHarToApiCall(name, request, gson).value.headers;
    HeadersOfConvert(name, request, gson, items);
    HeaderMap(items, headers);
  }

  lemma HeadersOfConvert(name: string, request: Json.Members, gson: Json.Gson, items: seq<Json.Json>)
    requires Json.GetArray(request, "headers") == Some(items)
    requires ConvertHarToApiCall(name, request, gson).Some?
    ensures HarParser.PutAll(items, ReadHeader, Kept) == Some(ConvertHarToApiCall(name, request, gson).value.headers)
  {
  }

  lemma HeaderMap(items: seq<Json.Json>, headers: map<string, string>)
    requires HarParser.PutAll(items, ReadHeader, Kept) == Some(headers)
    ensures forall k :: k in headers <==> Kept(k) && HarParser.NameRead(items, ReadHeader, k)
    ensures forall i :: HarParser.LastRead(items, i, ReadHeader) && Kept(ReadHeader(items[i]).value.0) ==>
      ReadHeader(items[i]).value.0 in headers && headers[ReadHeader(items[i]).value.0] == ReadHeader(items[i]).value.1
  {
    forall k ensures k in headers <==> Kept(k) && HarParser.NameRead(items, ReadHeader, k) {
      HarParser.PutAllKeys(items, ReadHeader, Kept, k);
    }
    forall i | HarParser.LastRead(items, i, ReadHeader) && Kept(ReadHeader(items[i]).value.0)
      ensures ReadHeader(items[i]).value.0 in headers && headers[ReadHeader(items[i]).value.0] == ReadHeader(items[i]).value.1
    {
      HarParser.PutAllLastWins(items, ReadHeader, Kept, i);
    }
  }

  /** Form parameters are never read: a request whose postData has no `text` gets an empty body. */
  lemma ParamsIgnored(name: string, request: Json.Members, gson: Json.Gson, postData: Json.Members)
    requires Json.GetObject(request, "postData") == Some(postData) && !Json.Has(postData, "text")
    requires ConvertHarToApiCall(name, request, gson).Some?
    ensures ConvertHarToApiCall(name, request, gson).value.body == map[]
  {
  }

  // ----- the call name -----

  predicate NotDot(c: char) { c != '.' }

  /**
   * `[.][^.]+$` at `i`: a dot, then (greedily) every non-dot up to the end; the
   * match fails when a dot follows, since `$` cannot match before a dot.
   */
  predicate ExtensionAt(f: string, i: nat) {
    i + 1 < |f| && f[i] == '.' && Text.RunEnd(f, i + 1, NotDot) == |f|
  }

  /** `fileName.replaceFirst("[.][^.]+$", "")`: the leftmost match removed. */
  function StripExtension(f: string): (r: string)
    ensures r == f || (|r| < |f| && f[..|r|] == r && ExtensionAt(f, |r|))
  {
    var at := (i: nat) => if ExtensionAt(f, i) then Some(i) else None;
    match Scan.FindFrom(|f|, 0, at)
    case Some((i, _)) => f[..i]
    case None => f
  }

  /** A name plus one dotted extension loses exactly the extension. */
  lemma StripExtensionRoundTrip(base: string, ext: string)
    requires ext != "" && '.' !in ext
    ensures StripExtension(base + "." + ext) == base
  {
    var f := base + "." + ext;
    var n := |base|;
    assert f[n] == '.';
    forall k | n + 1 <= k < |f| ensures NotDot(f[k]) {
      assert f[k] == ext[k - n - 1];
    }
    Text.RunEndAt(f, n + 1, NotDot, |f|);
    assert ExtensionAt(f, n);
    var at := (i: nat) => if ExtensionAt(f, i) then Some(i) else None;
    forall i | 0 <= i < n ensures at(i).None? {
      if i + 1 < |f| && f[i] == '.' {
        assert Text.RunEnd(f, i + 1, NotDot) <= n;
      }
    }
    Scan.FindFromLeftmost(|f|, 0, at, n);
    assert f[..n] == base;
  }

  /** A file name without a dot is the call name as it is. */
  lemma NoDotKept(f: string)
    requires '.' !in f
    ensures StripExtension(f) == f
  {
    var at := (i: nat) => if ExtensionAt(f, i) then Some(i) else None;
    forall i | 0 <= i <= |f| ensures at(i).None? {
      if i < |f| { assert f[i] in f; }
    }
  }

  // ----- performImport -----

  datatype ImportOutcome =
    | NoFileSelected
    | NoRequestSelected
    | ImportFailed
    | Declined
    | Save(call: Model.ApiCall)

  /**
   * The call converted from the entry at `selected`: the entry as an object,
   * its `request` object, then convertHarToApiCall. None when the index is out
   * of range or any step throws.
   */
  function SelectedCall(entries: seq<Json.Json>, selected: int, name: string, gson: Json.Gson): Option<Model.ApiCall> {
    if 0 <= selected < |entries| then
      var entry :- Json.AsObject(entries[selected]);
      var request :- Json.GetObject(entry, "request");
      ConvertHarToApiCall(name, request, gson)
    else None
  }

  /**
   * performImport for the chosen file and entry. `fileName` is the file's base
   * name, `saved` says whether a call of a name is saved already and
   * `overwrite` is the answer to the overwrite question.
   */
  function PerformImport(filePath: string, fileName: string, selected: int, entries: seq<Json.Json>,
                         saved: string -> bool, overwrite: bool, gson: Json.Gson): (r: ImportOutcome)
    ensures filePath == "" <==> r == NoFileSelected
    ensures filePath != "" && selected < 0 <==> r == NoRequestSelected
    ensures filePath != "" && selected >= 0 ==>
      (r == ImportFailed <==> SelectedCall(entries, selected, StripExtension(fileName), gson).None?)
    ensures r.Save? ==> SelectedCall(entries, selected, StripExtension(fileName), gson) == Some(r.call)
    ensures r.Save? ==> r.call.name == Some(StripExtension(fileName))
    ensures r.Save? ==> !saved(StripExtension(fileName)) || overwrite
    ensures r == Declined <==>
      filePath != "" && selected >= 0 && SelectedCall(entries, selected, StripExtension(fileName), gson).Some?
      && saved(StripExtension(fileName)) && !overwrite
  {
    if filePath == "" then NoFileSelected
    else if selected < 0 then NoRequestSelected
    else
      var name := StripExtension(fileName);
      match SelectedCall(entries, selected, name, gson)
      case None => ImportFailed
      case Some(call) =>
        if saved(name) && !overwrite then Declined else Save(call)
  }

  /**
   * Importing the request of entry `selected` from `base.ext`, with no clash or
   * a confirmed overwrite, saves that request's conversion under the name `base`.
   */
  lemma ImportSavesSelected(filePath: string, base: string, ext: string, selected: nat, entries: seq<Json.Json>,
                            request: Json.Members, saved: string -> bool, overwrite: bool, gson: Json.Gson)
    requires filePath != "" && ext != "" && '.' !in ext
    requires selected < |entries| && entries[selected].JObject?
    requires Json.GetObject(entries[selected].members, "request") == Some(request)
    requires ConvertHarToApiCall(base, request, gson).Some?
    requires !saved(base) || overwrite
    ensures PerformImport(filePath, base + "." + ext, selected, entries, saved, overwrite, gson)
      == Save(ConvertHarToApiCall(base, request, gson).value)
    ensures ConvertHarToApiCall(base, request, gson).value.name == Some(base)
  {
    StripExtensionRoundTrip(base, ext);
  }
}

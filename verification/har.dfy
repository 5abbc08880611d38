/**
 * HarParser: a HAR (HTTP Archive) document, already parsed into JSON, turned
 * into saved calls, one per convertible entry, in entry order.
 */
module HarParser {
  import opened Wrappers
  import Text
  import Pairs
  import Json
  import Model
  import CurlName

  // ----- reading name/value lists -----

  /** `items[i]` reads as a pair whose name is `k`. */
  predicate Reads(items: seq<Json.Json>, i: int, read: Json.Json -> Option<(string, string)>, k: string) {
    0 <= i < |items| && read(items[i]).Some? && read(items[i]).value.0 == k
  }

  /** Some item reads as a pair named `k`. */
  predicate NameRead(items: seq<Json.Json>, read: Json.Json -> Option<(string, string)>, k: string) {
    exists i :: 0 <= i < |items| && Reads(items, i, read, k)
  }

  /** `items[i]` reads as a pair and no later item reads with the same name. */
  predicate LastRead(items: seq<Json.Json>, i: int, read: Json.Json -> Option<(string, string)>) {
    0 <= i < |items| && read(items[i]).Some?
    && forall j :: i < j < |items| ==> !Reads(items, j, read, read(items[i]).value.0)
  }

  /** Every item reads as a pair. */
  predicate AllRead(items: seq<Json.Json>, read: Json.Json -> Option<(string, string)>) {
    forall i :: 0 <= i < |items| ==> read(items[i]).Some?
  }

  /**
   * The loop `for (el : items) { (n, v) = read(el); if (keep(n)) map.put(n, v); }`
   * on an empty map; None when reading some element throws.
   */
  function PutAll(items: seq<Json.Json>, read: Json.Json -> Option<(string, string)>, keep: string -> bool)
    : (r: Option<map<string, string>>)
    ensures r.Some? <==> AllRead(items, read)
    decreases |items|
  {
    if |items| == 0 then Some(map[])
    else
      var prefix := items[..|items| - 1];
      var last := items[|items| - 1];
      var m := PutAll(prefix, read, keep);
      assert forall i :: 0 <= i < |prefix| ==> prefix[i] == items[i];
      if m.None? || read(last).None? then None
      else
        var p := read(last).value;
        Some(if keep(p.0) then m.value[p.0 := p.1] else m.value)
  }

  /** Dropping the last item: the names read are those of the rest plus the last one's. */
  lemma NameReadSnoc(items: seq<Json.Json>, read: Json.Json -> Option<(string, string)>, k: string)
    requires |items| > 0
    ensures NameRead(items, read, k) <==>
      NameRead(items[..|items| - 1], read, k) || Reads(items, |items| - 1, read, k)
  {
    var prefix := items[..|items| - 1];
    if NameRead(items, read, k) {
      var i :| 0 <= i < |items| && Reads(items, i, read, k);
      if i < |prefix| {
        assert prefix[i] == items[i];
        assert Reads(prefix, i, read, k);
      }
    }
    if NameRead(prefix, read, k) {
      var i :| 0 <= i < |prefix| && Reads(prefix, i, read, k);
      assert prefix[i] == items[i];
      assert Reads(items, i, read, k);
    }
  }

  /** The map holds exactly the kept names that some item reads. */
  lemma {:induction false} PutAllKeys(items: seq<Json.Json>, read: Json.Json -> Option<(string, string)>, keep: string -> bool, k: string)
    requires AllRead(items, read)
    ensures k in PutAll(items, read, keep).value <==> keep(k) && NameRead(items, read, k)
    decreases |items|
  {
    if |items| == 0 {
    } else {
      var prefix := items[..|items| - 1];
      assert AllRead(prefix, read) by {
        forall i | 0 <= i < |prefix| ensures read(prefix[i]).Some? {
          assert prefix[i] == items[i];
        }
      }
      PutAllKeys(prefix, read, keep, k);
      NameReadSnoc(items, read, k);
    }
  }

  /** The last item read with a kept name decides that name's value. */
  lemma {:induction false} PutAllLastWins(items: seq<Json.Json>, read: Json.Json -> Option<(string, string)>, keep: string -> bool, i: int)
    requires AllRead(items, read)
    requires LastRead(items, i, read) && keep(read(items[i]).value.0)
    ensures read(items[i]).value.0 in PutAll(items, read, keep).value
    ensures PutAll(items, read, keep).value[read(items[i]).value.0] == read(items[i]).value.1
    decreases |items|
  {
    var prefix := items[..|items| - 1];
    if i < |prefix| {
      assert prefix[i] == items[i];
      assert AllRead(prefix, read) by {
        forall x | 0 <= x < |prefix| ensures read(prefix[x]).Some? {
          assert prefix[x] == items[x];
        }
      }
      assert LastRead(prefix, i, read) by {
        forall j | i < j < |prefix| ensures !Reads(prefix, j, read, read(prefix[i]).value.0) {
          assert prefix[j] == items[j];
          assert !Reads(items, j, read, read(items[i]).value.0);
        }
      }
      assert !Reads(items, |items| - 1, read, read(items[i]).value.0);
      PutAllLastWins(prefix, read, keep, i);
    }
  }

  /** A HAR name/value object: both members optional with "" as default; None when one is not a string. */
  function ReadNameValue(j: Json.Json): (r: Option<(string, string)>)
    ensures j.JObject? && !Json.Has(j.members, "name") && !Json.Has(j.members, "value") ==> r == Some(("", ""))
    ensures !j.JObject? ==> r.None?
  {
    var o :- Json.AsObject(j);
    var n :- Json.GetStringOr(o, "name", "");
    var v :- Json.GetStringOr(o, "value", "");
    Some((n, v))
  }

  predicate NonEmpty(n: string) { n != "" }

  /** The headers or form parameters of a request: empty names dropped, the last duplicate wins. */
  function NamedValues(items: seq<Json.Json>): Option<map<string, string>> {
    PutAll(items, ReadNameValue, NonEmpty)
  }

  /** The headers (or form parameters) are the non-empty names read, each with its last value. */
  lemma NamedValuesMap(items: seq<Json.Json>, m: map<string, string>)
    requires NamedValues(items) == Some(m)
    ensures forall k :: k in m <==> k != "" && NameRead(items, ReadNameValue, k)
    ensures forall i :: LastRead(items, i, ReadNameValue) && ReadNameValue(items[i]).value.0 != "" ==>
      ReadNameValue(items[i]).value.0 in m && m[ReadNameValue(items[i]).value.0] == ReadNameValue(items[i]).value.1
  {
    forall k ensures k in m <==> k != "" && NameRead(items, ReadNameValue, k) {
      PutAllKeys(items, ReadNameValue, NonEmpty, k);
    }
    forall i | LastRead(items, i, ReadNameValue) && ReadNameValue(items[i]).value.0 != ""
      ensures ReadNameValue(items[i]).value.0 in m && m[ReadNameValue(items[i]).value.0] == ReadNameValue(items[i]).value.1
    {
      PutAllLastWins(items, ReadNameValue, NonEmpty, i);
    }
  }

  // ----- the body -----

  /** A body member's text: a primitive's own string, anything else its JSON text. */
  function MemberText(v: Json.Json, gson: Json.Gson): string {
    if Json.IsPrimitive(v) then Json.AsString(v).value else gson.render(v)
  }

  /** The (key, text) pairs put into the body, one per member in iteration order. */
  function TextPairs(es: Json.Members, gson: Json.Gson): (ps: seq<(string, string)>)
    ensures |ps| == |es|
    ensures forall i :: 0 <= i < |es| ==> ps[i] == (es[i].0, MemberText(es[i].1, gson))
  {
    seq(|es|, i requires 0 <= i < |es| => (es[i].0, MemberText(es[i].1, gson)))
  }

  /** Every top-level member of a parsed object, by its text; keys in iteration order. */
  function ObjectBody(ms: Json.Members, gson: Json.Gson): (r: map<string, string>)
    ensures forall k :: k in r <==> Pairs.HasKey(ms, k)
    ensures forall k :: k in r ==> Json.Get(ms, k).Some? && r[k] == MemberText(Json.Get(ms, k).value, gson)
  {
    ObjectBodyFacts(ms, gson);
    Pairs.ToMap(TextPairs(Json.Entries(ms), gson))
  }

  /** The body built from the entries holds each key of the object with the text of its (last) value. */
  lemma ObjectBodyFacts(ms: Json.Members, gson: Json.Gson)
    ensures var r := Pairs.ToMap(TextPairs(Json.Entries(ms), gson));
      && (forall k :: k in r <==> Pairs.HasKey(ms, k))
      && (forall k :: k in r ==> Json.Get(ms, k).Some? && r[k] == MemberText(Json.Get(ms, k).value, gson))
  {
    var es := Json.Entries(ms);
    var ps := TextPairs(es, gson);
    forall k | Pairs.HasKey(es, k) ensures Pairs.HasKey(ps, k) {
      var i :| 0 <= i < |es| && es[i].0 == k;
      assert ps[i].0 == k;
    }
    forall k | Pairs.HasKey(ps, k) ensures Pairs.HasKey(es, k) {
      var i :| 0 <= i < |ps| && ps[i].0 == k;
      assert es[i].0 == k;
    }
    var r := Pairs.ToMap(ps);
    forall k | k in r ensures Json.Get(ms, k).Some? && r[k] == MemberText(Json.Get(ms, k).value, gson) {
      var i :| 0 <= i < |ps| && ps[i] == (k, r[k]);
      assert es[i].0 == k;
    }
  }

  /** `text.startsWith("{") && text.endsWith("}")`. */
  predicate BraceWrapped(text: string) {
    Text.StartsWith(text, "{") && Text.EndsWith(text, "}")
  }

  /** `postData.text`: a brace-wrapped text that parses to an object gives its members, all else `{"data": text}`. */
  function TextBody(text: string, gson: Json.Gson): (r: map<string, string>)
    ensures !BraceWrapped(text) ==> r == map["data" := text]
    ensures BraceWrapped(text) && gson.parse(text).Some? && gson.parse(text).value.JObject? ==>
      r == ObjectBody(gson.parse(text).value.members, gson)
    ensures BraceWrapped(text) && !(gson.parse(text).Some? && gson.parse(text).value.JObject?) ==> r == map["data" := text]
  {
    if BraceWrapped(text) then
      var parsed := gson.parse(text);
      if parsed.Some? && parsed.value.JObject? then ObjectBody(parsed.value.members, gson)
      else map["data" := text]
    else map["data" := text]
  }

  /** The body of a request: `postData.text` when present, else `postData.params`, else nothing. */
  function RequestBody(request: Json.Members, gson: Json.Gson): (r: Option<map<string, string>>)
    ensures !Json.Has(request, "postData") ==> r == Some(map[])
  {
    if !Json.Has(request, "postData") then Some(map[])
    else
      var postData :- Json.GetObject(request, "postData");
      if Json.Has(postData, "text") then
        var text :- Json.GetString(postData, "text");
        Some(TextBody(text, gson))
      else if Json.Has(postData, "params") then
        var params :- Json.GetArray(postData, "params");
        NamedValues(params)
      else Some(map[])
  }

  // ----- entries -----

  /** `entry.getAsJsonObject("request")` on an entry object; None when either cast fails. */
  function EntryRequest(entry: Json.Json): Option<Json.Members> {
    if entry.JObject? then Json.GetObject(entry.members, "request") else None
  }

  /** The headers of a request: the `headers` list read by NamedValues, or none when it is absent. */
  function RequestHeaders(request: Json.Members): Option<map<string, string>> {
    if !Json.Has(request, "headers") then Some(map[])
    else
      match Json.GetArray(request, "headers")
      case Some(items) => NamedValues(items)
      case None => None
  }

  /** Every part of a request reads without an exception, and its `url` is not empty. */
  predicate Convertible(request: Json.Members, gson: Json.Gson) {
    Json.GetStringOr(request, "method", "GET").Some?
    && Json.GetStringOr(request, "url", "").Some? && Json.GetStringOr(request, "url", "").value != ""
    && RequestHeaders(request).Some?
    && RequestBody(request, gson).Some?
  }

  /**
   * parseEntry: None for an entry without `request`, for an absent or empty
   * `url`, and for an entry whose reading throws (the caller skips all three).
   * A converted entry takes its url, method (GET by default), headers and
   * body from the request, and its name from the url.
   */
  function ParseEntry(entry: Json.Json, gson: Json.Gson): (r: Option<Model.ApiCall>)
    ensures r.Some? <==> EntryRequest(entry).Some? && Convertible(EntryRequest(entry).value, gson)
    ensures r.Some? ==>
      var request := EntryRequest(entry).value;
      && Json.GetStringOr(request, "url", "") == Some(r.value.url)
      && Json.GetStringOr(request, "method", "GET") == Some(r.value.httpMethod)
      && RequestHeaders(request) == Some(r.value.headers)
      && RequestBody(request, gson) == Some(r.value.body)
    ensures r.Some? ==> r.value.url != "" && r.value.name == Some(CurlName.GenerateName(r.value.url))
    ensures r.Some? ==> r.value.group.None?
    ensures entry.JObject? && !Json.Has(entry.members, "request") ==> r.None?
  {
    var e :- Json.AsObject(entry);
    if !Json.Has(e, "request") then None
    else
      var request :- Json.GetObject(e, "request");
      var verb :- Json.GetStringOr(request, "method", "GET");
      var url :- Json.GetStringOr(request, "url", "");
      if url == "" then None
      else
        var headers :- if Json.Has(request, "headers") then
            var items :- Json.GetArray(request, "headers");
            NamedValues(items)
          else Some(map[]);
        var body :- RequestBody(request, gson);
        Some(Model.ApiCall(Some(CurlName.GenerateName(url)), url, verb, headers, body, None))
  }

  /** parseEntry as the function the loop of parseHar applies to every entry. */
  function EntryConverter(gson: Json.Gson): Json.Json -> Option<Model.ApiCall> {
    e => ParseEntry(e, gson)
  }

  /** One entry's contribution: its conversion, or nothing when it is skipped. */
  function Converted<T>(entry: Json.Json, convert: Json.Json -> Option<T>): (r: seq<T>)
    ensures |r| <= 1 && (|r| == 1 <==> convert(entry).Some?)
    ensures |r| == 1 ==> r[0] == convert(entry).value
  {
    match convert(entry)
    case Some(c) => [c]
    case None => []
  }

  /** The loop of parseHar: each entry's contribution, in entry order. */
  function Gather<T>(entries: seq<Json.Json>, convert: Json.Json -> Option<T>): seq<T>
    decreases |entries|
  {
    if |entries| == 0 then [] else Converted(entries[0], convert) + Gather(entries[1..], convert)
  }

  /** What the loop keeps: only converted entries, every one of them, and nothing iff none converts. */
  lemma {:induction false} GatherFacts<T>(entries: seq<Json.Json>, convert: Json.Json -> Option<T>)
    ensures var r := Gather(entries, convert);
      && |r| <= |entries|
      && (forall c :: c in r ==> exists i :: 0 <= i < |entries| && convert(entries[i]) == Some(c))
      && (forall i :: 0 <= i < |entries| && convert(entries[i]).Some? ==> convert(entries[i]).value in r)
      && (|r| == 0 <==> forall i :: 0 <= i < |entries| ==> convert(entries[i]).None?)
    decreases |entries|
  {
    if |entries| > 0 {
      var head := Converted(entries[0], convert);
      var rest := Gather(entries[1..], convert);
      GatherFacts(entries[1..], convert);
      assert Gather(entries, convert) == head + rest;
      assert forall i :: 1 <= i < |entries| ==> entries[i] == entries[1..][i - 1];
      forall c | c in rest ensures exists i :: 0 <= i < |entries| && convert(entries[i]) == Some(c) {
        var i :| 0 <= i < |entries[1..]| && convert(entries[1..][i]) == Some(c);
        assert convert(entries[i + 1]) == Some(c);
      }
    }
  }

  /** The results of the entries that convert, in entry order (the loop of parseHar). */
  function Collect<T>(entries: seq<Json.Json>, convert: Json.Json -> Option<T>): (r: seq<T>)
    ensures |r| <= |entries|
    ensures forall c :: c in r ==> exists i :: 0 <= i < |entries| && convert(entries[i]) == Some(c)
    ensures forall i :: 0 <= i < |entries| && convert(entries[i]).Some? ==> convert(entries[i]).value in r
    ensures |r| == 0 <==> forall i :: 0 <= i < |entries| ==> convert(entries[i]).None?
  {
    GatherFacts(entries, convert);
    Gather(entries, convert)
  }

  lemma {:induction false} GatherAppend<T>(a: seq<Json.Json>, b: seq<Json.Json>, convert: Json.Json -> Option<T>)
    ensures Gather(a + b, convert) == Gather(a, convert) + Gather(b, convert)
    decreases |a|
  {
    if |a| == 0 {
      assert a + b == b;
    } else {
      var ab := a + b;
      assert ab[0] == a[0];
      assert ab[1..] == a[1..] + b;
      GatherAppend(a[1..], b, convert);
    }
  }

  /** Converting two runs of entries one after the other: the results concatenate, so entry order is kept. */
  lemma CollectAppend<T>(a: seq<Json.Json>, b: seq<Json.Json>, convert: Json.Json -> Option<T>)
    ensures Collect(a + b, convert) == Collect(a, convert) + Collect(b, convert)
  {
    GatherAppend(a, b, convert);
  }

  /** A converting entry preceded only by skipped entries gives the first result. */
  lemma FirstConverted<T>(skipped: seq<Json.Json>, entry: Json.Json, rest: seq<Json.Json>, convert: Json.Json -> Option<T>)
    requires forall i :: 0 <= i < |skipped| ==> convert(skipped[i]).None?
    requires convert(entry).Some?
    ensures |Collect(skipped + [entry] + rest, convert)| > 0
    ensures Collect(skipped + [entry] + rest, convert)[0] == convert(entry).value
  {
    CollectAppend(skipped + [entry], rest, convert);
    CollectAppend(skipped, [entry], convert);
    assert Collect(skipped, convert) == [];
    assert [entry][1..] == [];
    assert Collect([entry], convert) == [convert(entry).value];
  }

  // ----- the document -----

  datatype HarError =
    | EmptyContent
    | NotParsed       // not JSON, not an object, or `log`/`entries` of the wrong kind
    | MissingLog
    | MissingEntries
    | NoValidRequests

  /** The exception message (for NotParsed, Gson's own message follows the prefix and is not modelled). */
  function ErrorMessage(e: HarError): string {
    match e
    case EmptyContent => "HAR content cannot be empty"
    case NotParsed => "Failed to parse HAR file: "
    case MissingLog => "Failed to parse HAR file: Invalid HAR format: missing 'log' object"
    case MissingEntries => "Failed to parse HAR file: Invalid HAR format: missing 'entries' array"
    case NoValidRequests => "No valid HTTP requests found in HAR file"
  }

  /** `log.entries` of a parsed document, or why there is none. */
  function EntriesOf(content: string, gson: Json.Gson): (r: Result<seq<Json.Json>, HarError>)
    ensures r.Failure? ==> r.error in {NotParsed, MissingLog, MissingEntries}
  {
    var parsed := gson.parse(content);
    if parsed.None? || !parsed.value.JObject? then Failure(NotParsed)
    else
      var root := parsed.value.members;
      if !Json.Has(root, "log") then Failure(MissingLog)
      else
        match Json.GetObject(root, "log")
        case None => Failure(NotParsed)
        case Some(log) =>
          if !Json.Has(log, "entries") then Failure(MissingEntries)
          else
            match Json.GetArray(log, "entries")
            case None => Failure(NotParsed)
            case Some(entries) => Success(entries)
  }

  /** parseHar. */
  function ParseHar(content: string, gson: Json.Gson): (r: Result<seq<Model.ApiCall>, HarError>)
    ensures r == Failure(EmptyContent) <==> Text.IsBlank(content)
    ensures !Text.IsBlank(content) && EntriesOf(content, gson).Failure? ==> r == Failure(EntriesOf(content, gson).error)
    ensures r.Success? ==> |r.value| > 0
    ensures r.Success? ==>
      EntriesOf(content, gson).Success? && r.value == Collect(EntriesOf(content, gson).value, EntryConverter(gson))
    ensures (!Text.IsBlank(content) && EntriesOf(content, gson).Success?
             && |Collect(EntriesOf(content, gson).value, EntryConverter(gson))| > 0) ==>
      r == Success(Collect(EntriesOf(content, gson).value, EntryConverter(gson)))
    ensures r.Success? ==> forall c :: c in r.value ==> c.url != "" && c.name == Some(CurlName.GenerateName(c.url))
    ensures r == Failure(NoValidRequests) <==>
      !Text.IsBlank(content) && EntriesOf(content, gson).Success?
      && forall i :: 0 <= i < |EntriesOf(content, gson).value| ==> ParseEntry(EntriesOf(content, gson).value[i], gson).None?
  {
    Text.TrimEmptyIffBlank(content);
    if Text.Trim(content) == "" then Failure(EmptyContent)
    else
      match EntriesOf(content, gson)
      case Failure(e) => Failure(e)
      case Success(entries) =>
        var calls := Collect(entries, EntryConverter(gson));
        CollectedNamed(entries, gson);
        if |calls| == 0 then Failure(NoValidRequests) else Success(calls)
  }

  /** Every call converted from the entries has a URL and is named after it. */
  lemma CollectedNamed(entries: seq<Json.Json>, gson: Json.Gson)
    ensures forall c :: c in Collect(entries, EntryConverter(gson)) ==>
      c.url != "" && c.name == Some(CurlName.GenerateName(c.url))
  {
    forall c | c in Collect(entries, EntryConverter(gson))
      ensures c.url != "" && c.name == Some(CurlName.GenerateName(c.url))
    {
      var i :| 0 <= i < |entries| && EntryConverter(gson)(entries[i]) == Some(c);
      assert ParseEntry(entries[i], gson) == Some(c);
    }
  }

  /**
   * The calls of a document whose entries are `a` followed by `b` are those
   * of `a` followed by those of `b`: the entries' order is kept.
   */
  lemma ParseHarKeepsOrder(content: string, gson: Json.Gson, a: seq<Json.Json>, b: seq<Json.Json>)
    requires ParseHar(content, gson).Success?
    requires EntriesOf(content, gson) == Success(a + b)
    ensures ParseHar(content, gson).value == Collect(a, EntryConverter(gson)) + Collect(b, EntryConverter(gson))
  {
    CollectAppend(a, b, EntryConverter(gson));
  }

  /** A request with nothing but a URL: method GET, no headers, no body, named after the URL. */
  lemma UrlOnlyEntry(url: string, gson: Json.Gson)
    requires url != ""
    ensures ParseEntry(Json.JObject([("request", Json.JObject([("url", Json.JString(url))]))]), gson)
      == Some(Model.ApiCall(Some(CurlName.GenerateName(url)), url, "GET", map[], map[], None))
  {
    var request: Json.Members := [("url", Json.JString(url))];
    var entry: Json.Members := [("request", Json.JObject(request))];
    assert Json.GetObject(entry, "request") == Some(request);
    assert !Json.Has(request, "method") && !Json.Has(request, "headers") && !Json.Has(request, "postData");
    assert Json.GetStringOr(request, "url", "") == Some(url);
  }

  /** An entry whose request has an empty `url` is skipped. */
  lemma EmptyUrlSkipped(request: Json.Members, gson: Json.Gson)
    requires Json.GetStringOr(request, "url", "") == Some("")
    ensures ParseEntry(Json.JObject([("request", Json.JObject(request))]), gson).None?
  {
    var entry: Json.Members := [("request", Json.JObject(request))];
    assert Json.GetObject(entry, "request") == Some(request);
  }
}

/**
 * ApiCallService.executeApiCall: everything up to the network send is a pure
 * function of the saved call and the environment; the send itself (request
 * building, URI parsing, header validation and the HTTP exchange) is an
 * oracle supplied by the caller.
 */
module Execution {
  import opened Wrappers
  import Text
  import Pairs
  import Json
  import Model
  import Substitution

  datatype Verb = GET | POST | PUT | DELETE | PATCH | HEAD | OPTIONS

  function VerbName(v: Verb): string {
    match v
    case GET => "GET"
    case POST => "POST"
    case PUT => "PUT"
    case DELETE => "DELETE"
    case PATCH => "PATCH"
    case HEAD => "HEAD"
    case OPTIONS => "OPTIONS"
  }

  /** The verbs that carry the body string and may get a default JSON content type. */
  predicate SendsBody(v: Verb) {
    v == POST || v == PUT || v == PATCH
  }

  /** The `switch` on the upper-cased method name; an unknown name falls to the `default` branch, a GET. */
  function Dispatch(name: string): (v: Verb)
    ensures VerbName(v) == Text.Upper(name) || (v == GET && !IsVerbName(Text.Upper(name)))
  {
    match Text.Upper(name)
    case "GET" => GET
    case "POST" => POST
    case "PUT" => PUT
    case "DELETE" => DELETE
    case "PATCH" => PATCH
    case "HEAD" => HEAD
    case "OPTIONS" => OPTIONS
    case _ => GET
  }

  predicate IsVerbName(u: string) {
    exists v: Verb :: VerbName(v) == u
  }

  /** Every verb is dispatched from its own name, in any letter case. */
  lemma DispatchName(v: Verb, name: string)
    requires Text.Upper(name) == VerbName(v)
    ensures Dispatch(name) == v
  {
  }

  /** The request handed to the client: what the builder was told before `build()`. */
  datatype RequestSpec = RequestSpec(
    url: string,
    verb: Verb,
    headers: map<string, string>,
    jsonContentTypeAdded: bool,
    body: Option<string>,
    timeoutSeconds: nat)

  /** What `httpClient.send` did: a response, or an exception with its message text. */
  datatype Outcome =
    | Responded(status: int, body: string, headers: map<string, seq<string>>, elapsed: int)
    | Threw(message: string)

  /** HttpCallResult; `error` holds the message of the exception caught, if any. */
  datatype CallResult = CallResult(
    status: int,
    body: string,
    headers: map<string, seq<string>>,
    duration: int,
    error: Option<string>)

  /** HttpCallResult.isSuccess. */
  predicate IsSuccess(r: CallResult) {
    r.error.None? && 200 <= r.status < 300
  }

  /** The catch block: status 0, "Error: " and the message, no headers, no duration. */
  function Failed(message: string): (r: CallResult)
    ensures !IsSuccess(r) && r.error == Some(message)
    ensures r.status == 0 && r.duration == 0 && r.headers == map[]
    ensures Text.StartsWith(r.body, "Error: ") && r.body[7..] == message
  {
    CallResult(0, "Error: " + message, map[], 0, Some(message))
  }

  /** The iteration orders of the three HashMaps whose traversal the result depends on. */
  datatype Orders = Orders(headers: seq<string>, body: seq<string>, environment: seq<string>)

  predicate OrdersOf(o: Orders, call: Model.ApiCall, env: map<string, string>) {
    Pairs.IsOrderOf(o.headers, call.headers)
    && Pairs.IsOrderOf(o.body, call.body)
    && Pairs.IsOrderOf(o.environment, env)
  }

  /** The (key, value) pairs put into the new map, in iteration order, both sides rewritten by `f`. */
  function RewrittenPairs(m: map<string, string>, order: seq<string>, f: string -> string): (ps: seq<(string, string)>)
    requires Pairs.IsOrderOf(order, m)
    ensures |ps| == |order|
    ensures forall i :: 0 <= i < |ps| ==> ps[i] == (f(order[i]), f(m[order[i]]))
  {
    seq(|order|, i requires 0 <= i < |order| => (f(order[i]), f(m[order[i]])))
  }

  /**
   * A map copied entry by entry into a fresh HashMap with key and value
   * rewritten by `f`. Keys that rewrite alike collide; the one visited last wins.
   */
  function RewriteMap(m: map<string, string>, order: seq<string>, f: string -> string): (r: map<string, string>)
    requires Pairs.IsOrderOf(order, m)
    ensures forall k :: k in m ==> f(k) in r
    ensures forall k' :: k' in r ==> exists k :: k in m && k' == f(k) && r[k'] == f(m[k])
  {
    var r := Pairs.ToMap(RewrittenPairs(m, order, f));
    forall k | k in m ensures f(k) in r {
      RewrittenKeyIn(m, order, f, k);
    }
    forall k' | k' in r ensures exists k :: k in m && k' == f(k) && r[k'] == f(m[k]) {
      RewrittenFrom(m, order, f, k');
    }
    r
  }

  lemma RewrittenKeyIn(m: map<string, string>, order: seq<string>, f: string -> string, k: string)
    requires Pairs.IsOrderOf(order, m) && k in m
    ensures f(k) in Pairs.ToMap(RewrittenPairs(m, order, f))
  {
    var ps := RewrittenPairs(m, order, f);
    var i :| 0 <= i < |order| && order[i] == k;
    assert ps[i].0 == f(k);
  }

  lemma RewrittenFrom(m: map<string, string>, order: seq<string>, f: string -> string, k': string)
    requires Pairs.IsOrderOf(order, m) && k' in Pairs.ToMap(RewrittenPairs(m, order, f))
    ensures var r := Pairs.ToMap(RewrittenPairs(m, order, f));
      exists k :: k in m && k' == f(k) && r[k'] == f(m[k])
  {
    var ps := RewrittenPairs(m, order, f);
    var r := Pairs.ToMap(ps);
    var i :| 0 <= i < |ps| && ps[i] == (k', r[k']);
    assert order[i] in m;
  }

  /** A rewrite that changes nothing copies the map. */
  lemma RewriteMapIdentity(m: map<string, string>, order: seq<string>, f: string -> string)
    requires Pairs.IsOrderOf(order, m)
    requires forall k :: k in m ==> f(k) == k && f(m[k]) == m[k]
    ensures RewriteMap(m, order, f) == m
  {
    var r := RewriteMap(m, order, f);
    forall k | k in m ensures k in r && r[k] == m[k] {
      var k2 :| k2 in m && f(k) == f(k2) && r[f(k)] == f(m[k2]);
    }
  }

  /** A rewrite under which no two keys collide maps each entry to its rewritten entry. */
  lemma RewriteMapPointwise(m: map<string, string>, order: seq<string>, f: string -> string, k: string)
    requires Pairs.IsOrderOf(order, m) && k in m
    requires forall k2 :: k2 in m && k2 != k ==> f(k2) != f(k)
    ensures f(k) in RewriteMap(m, order, f) && RewriteMap(m, order, f)[f(k)] == f(m[k])
  {
  }

  /** The header and body loops: every key and every value substituted. */
  function ResolveMap(m: map<string, string>, order: seq<string>, vars: map<string, string>): map<string, string>
    requires Pairs.IsOrderOf(order, m)
  {
    RewriteMap(m, order, s => Substitution.Resolve(s, vars))
  }

  /** Each key is resolved into the map; each resolved key carries a resolved value of a key that resolves to it. */
  lemma ResolveMapEntries(m: map<string, string>, order: seq<string>, vars: map<string, string>)
    requires Pairs.IsOrderOf(order, m)
    ensures forall k :: k in m ==> Substitution.Resolve(k, vars) in ResolveMap(m, order, vars)
    ensures forall k' :: k' in ResolveMap(m, order, vars) ==>
      exists k :: k in m && k' == Substitution.Resolve(k, vars)
               && ResolveMap(m, order, vars)[k'] == Substitution.Resolve(m[k], vars)
  {
    var f := s => Substitution.Resolve(s, vars);
    var r := RewriteMap(m, order, f);
    forall k | k in m ensures Substitution.Resolve(k, vars) in r {
      assert f(k) in r;
    }
    forall k' | k' in r
      ensures exists k :: k in m && k' == Substitution.Resolve(k, vars) && r[k'] == Substitution.Resolve(m[k], vars)
    {
      var k :| k in m && k' == f(k) && r[k'] == f(m[k]);
    }
  }

  /** An empty environment leaves a map exactly as it was, whatever the order. */
  lemma ResolveMapEmptyEnvironment(m: map<string, string>, order: seq<string>)
    requires Pairs.IsOrderOf(order, m)
    ensures ResolveMap(m, order, map[]) == m
  {
    var f := s => Substitution.Resolve(s, map[]);
    forall k | k in m ensures f(k) == k && f(m[k]) == m[k] {
      Substitution.ResolveEmptyEnvironment(k);
      Substitution.ResolveEmptyEnvironment(m[k]);
    }
    RewriteMapIdentity(m, order, f);
  }

  /** buildBodyContent: nothing for an empty map, else Gson's serialisation of it. */
  function BodyContent(body: map<string, string>, gson: Json.Gson): (r: string)
    ensures |body| == 0 ==> r == ""
    ensures |body| > 0 ==> r == gson.toJson(body)
  {
    if |body| == 0 then "" else gson.toJson(body)
  }

  /** The test that refuses a resolved URL which still looks templated. */
  predicate LooksTemplated(url: string) {
    Text.Contains(url, "{{") && Text.Contains(url, "}}")
  }

  /**
   * The StringBuilder loop over the matched names: ", " before every name
   * once the builder is non-empty.
   */
  function AppendNames(acc: string, names: seq<string>): string
    decreases |names|
  {
    if |names| == 0 then acc
    else AppendNames((if |acc| > 0 then acc + ", " else acc) + names[0], names[1..])
  }

  /** Because every captured name is non-empty, the loop joins the names with ", ". */
  lemma {:induction false} AppendNamesJoins(acc: string, names: seq<string>)
    requires forall i :: 0 <= i < |names| ==> |names[i]| > 0
    ensures |acc| > 0 && |names| > 0 ==> AppendNames(acc, names) == acc + ", " + Text.JoinComma(names)
    ensures |acc| == 0 ==> AppendNames(acc, names) == Text.JoinComma(names)
    decreases |names|
  {
    if |names| > 0 {
      var next := (if |acc| > 0 then acc + ", " else acc) + names[0];
      AppendNamesJoins(next, names[1..]);
      if |names| > 1 {
        assert Text.JoinComma(names) == names[0] + ", " + Text.JoinComma(names[1..]);
      }
    }
  }

  /** `keySet().toString()`: the keys in iteration order between brackets. */
  function KeySetText(order: seq<string>): string {
    "[" + Text.JoinComma(order) + "]"
  }

  /** The message of the IllegalArgumentException thrown for a templated URL. */
  function UnresolvedMessage(url: string, envOrder: seq<string>): string {
    "URL contains unresolved environment variables: " + AppendNames("", Substitution.PlaceholderNames(url))
    + "\nAvailable variables: " + KeySetText(envOrder)
  }

  /** The request built for a URL that passed the test. */
  function BuildRequest(call: Model.ApiCall, env: map<string, string>, o: Orders, gson: Json.Gson): (spec: RequestSpec)
    requires OrdersOf(o, call, env)
    ensures spec.url == Substitution.Resolve(call.url, env)
    ensures spec.headers == ResolveMap(call.headers, o.headers, env)
    ensures spec.verb == Dispatch(call.httpMethod)
    ensures spec.body.Some? <==> SendsBody(spec.verb)
    ensures spec.body.Some? ==> spec.body.value == BodyContent(ResolveMap(call.body, o.body, env), gson)
    ensures spec.jsonContentTypeAdded <==> SendsBody(spec.verb) && "Content-Type" !in spec.headers
    ensures spec.timeoutSeconds == 30
  {
    var headers := ResolveMap(call.headers, o.headers, env);
    var content := BodyContent(ResolveMap(call.body, o.body, env), gson);
    var verb := Dispatch(call.httpMethod);
    RequestSpec(
      Substitution.Resolve(call.url, env),
      verb,
      headers,
      SendsBody(verb) && "Content-Type" !in headers,
      if SendsBody(verb) then Some(content) else None,
      30)
  }

  /**
   * The result built from what the send did: a response's status, body,
   * headers and elapsed time with no error, or the catch block's result for
   * the exception.
   */
  function Received(o: Outcome): (r: CallResult)
    ensures o.Responded? ==> r.error.None? && r.status == o.status && r.body == o.body
                             && r.headers == o.headers && r.duration == o.elapsed
    ensures o.Threw? ==> r == Failed(o.message)
    ensures IsSuccess(r) <==> o.Responded? && 200 <= o.status < 300
  {
    match o
    case Responded(status, body, headers, elapsed) => CallResult(status, body, headers, elapsed, None)
    case Threw(message) => Failed(message)
  }

  /**
   * executeApiCall with the client's send as `send`: a URL still templated
   * after substitution is refused with the list of its placeholders and sends
   * nothing; otherwise the request built for the dispatched verb and the
   * resolved URL is sent, and the result is what the send did.
   */
  function ExecuteApiCall(call: Model.ApiCall, env: map<string, string>, o: Orders, gson: Json.Gson,
                          send: RequestSpec -> Outcome): (r: CallResult)
    requires OrdersOf(o, call, env)
    ensures var url := Substitution.Resolve(call.url, env);
      LooksTemplated(url) ==> r == Failed(UnresolvedMessage(url, o.environment))
    ensures var spec := BuildRequest(call, env, o, gson);
      && (!LooksTemplated(spec.url) ==> r == Received(send(spec)))
      && spec.url == Substitution.Resolve(call.url, env)
      && spec.verb == Dispatch(call.httpMethod)
    ensures var spec := BuildRequest(call, env, o, gson);
      IsSuccess(r) <==> !LooksTemplated(spec.url) && send(spec).Responded? && 200 <= send(spec).status < 300
    ensures var spec := BuildRequest(call, env, o, gson);
      r.error.None? <==> !LooksTemplated(spec.url) && send(spec).Responded?
  {
    var url := Substitution.Resolve(call.url, env);
    if LooksTemplated(url) then
      Failed(UnresolvedMessage(url, o.environment))
    else
      Received(send(BuildRequest(call, env, o, gson)))
  }

  /** A URL that still looks templated is refused before anything is sent: the send is irrelevant. */
  lemma TemplatedUrlNeverSent(call: Model.ApiCall, env: map<string, string>, o: Orders, gson: Json.Gson,
                              send1: RequestSpec -> Outcome, send2: RequestSpec -> Outcome)
    requires OrdersOf(o, call, env)
    requires LooksTemplated(Substitution.Resolve(call.url, env))
    ensures ExecuteApiCall(call, env, o, gson, send1) == ExecuteApiCall(call, env, o, gson, send2)
    ensures !IsSuccess(ExecuteApiCall(call, env, o, gson, send1))
  {
  }

  /** A successful result came from a request that was sent and answered with a 2xx status. */
  lemma SuccessMeansAnswered(call: Model.ApiCall, env: map<string, string>, o: Orders, gson: Json.Gson,
                             send: RequestSpec -> Outcome)
    requires OrdersOf(o, call, env)
    requires IsSuccess(ExecuteApiCall(call, env, o, gson, send))
    ensures !LooksTemplated(Substitution.Resolve(call.url, env))
    ensures send(BuildRequest(call, env, o, gson)).Responded?
    ensures 200 <= send(BuildRequest(call, env, o, gson)).status < 300
  {
  }

  /** The names listed for a templated URL are exactly the placeholders the pattern finds, joined with ", ". */
  lemma UnresolvedMessageNames(url: string, envOrder: seq<string>)
    ensures UnresolvedMessage(url, envOrder)
      == "URL contains unresolved environment variables: " + Text.JoinComma(Substitution.PlaceholderNames(url))
         + "\nAvailable variables: " + KeySetText(envOrder)
  {
    Substitution.NamesNonEmpty(url);
    AppendNamesJoins("", Substitution.PlaceholderNames(url));
  }

  /** With an empty environment the request carries the saved URL and headers unchanged. */
  lemma EmptyEnvironmentRequest(call: Model.ApiCall, o: Orders, gson: Json.Gson)
    requires OrdersOf(o, call, map[])
    ensures BuildRequest(call, map[], o, gson).url == call.url
    ensures BuildRequest(call, map[], o, gson).headers == call.headers
    ensures BuildRequest(call, map[], o, gson).body.Some? ==> BuildRequest(call, map[], o, gson).body.value == BodyContent(call.body, gson)
  {
    Substitution.ResolveEmptyEnvironment(call.url);
    ResolveMapEmptyEnvironment(call.headers, o.headers);
    ResolveMapEmptyEnvironment(call.body, o.body);
  }

  /** `}}` before `{{` with no placeholder between: refused, with an empty list of names. */
  lemma ClosingBeforeOpening(rest: string)
    requires '{' !in rest && '}' !in rest
    ensures LooksTemplated("}}{{" + rest)
    ensures Substitution.PlaceholderNames("}}{{" + rest) == []
  {
    var s := "}}{{" + rest;
    assert Text.OccursAt(s, "}}", 0) && Text.OccursAt(s, "{{", 2);
    Text.ContainsIff(s, "}}");
    Text.ContainsIff(s, "{{");
    forall k | 0 <= k <= |s| ensures Substitution.PlaceholderKey(s[k..]).None? {
      var t := s[k..];
      if k == 2 {
        var j := Substitution.KeyEnd(t, 2);
        assert forall x :: 2 <= x < |t| ==> t[x] == rest[x - 2];
        assert j == |t|;
      } else if k > 3 && |t| > 0 {
        assert t[0] == rest[k - 4];
      }
    }
    Substitution.ResolveTail(s, 0, map[]);
    assert s[0..] == s;
  }
}

/**
 * JSON values as Gson hands them over after parsing, and the Gson calls the
 * importers and the display make, as an oracle.
 */
module Json {
  import opened Wrappers
  import Pairs

  datatype Json =
    | JNull
    | JBool(b: bool)
    | JNumber(text: string)
    | JString(str: string)
    | JArray(items: seq<Json>)
    | JObject(members: seq<(string, Json)>)

  /** Object members in document order; a key may repeat. */
  type Members = seq<(string, Json)>

  /**
   * The Gson library entry points, supplied by the caller: `parse` is
   * `JsonParser.parseString` / `Gson.fromJson` (None when it throws), `render` is
   * `JsonElement.toString`, `toJson` serialises a string map, `pretty` is the
   * pretty-printing `Gson.toJson`.
   */
  datatype Gson = Gson(
    parse: string -> Option<Json>,
    render: Json -> string,
    toJson: map<string, string> -> string,
    pretty: Json -> string)

  /** The value of the last member named `k`: a parsed JsonObject keeps the last duplicate. */
  function Get(ms: Members, k: string): (r: Option<Json>)
    ensures r.Some? <==> Pairs.HasKey(ms, k)
    ensures r.Some? ==> exists i :: Pairs.IsLast(ms, i) && ms[i] == (k, r.value)
  {
    if |ms| == 0 then None
    else if ms[|ms| - 1].0 == k then
      assert Pairs.IsLast(ms, |ms| - 1);
      Some(ms[|ms| - 1].1)
    else
      var prefix := ms[..|ms| - 1];
      var r := Get(prefix, k);
      GetPrefix(ms, prefix, k, r);
      r
  }

  /** Lifting Get's contract from all members but the last, when the last has another key. */
  lemma GetPrefix(ms: Members, prefix: Members, k: string, r: Option<Json>)
    requires |ms| > 0 && prefix == ms[..|ms| - 1] && ms[|ms| - 1].0 != k
    requires r.Some? <==> Pairs.HasKey(prefix, k)
    requires r.Some? ==> exists i :: Pairs.IsLast(prefix, i) && prefix[i] == (k, r.value)
    ensures r.Some? <==> Pairs.HasKey(ms, k)
    ensures r.Some? ==> exists i :: Pairs.IsLast(ms, i) && ms[i] == (k, r.value)
  {
    assert forall x :: 0 <= x < |prefix| ==> prefix[x] == ms[x];
    if Pairs.HasKey(ms, k) {
      var i :| 0 <= i < |ms| && ms[i].0 == k;
      assert i < |prefix| && prefix[i].0 == k;
    }
    if r.Some? {
      var i :| Pairs.IsLast(prefix, i) && prefix[i] == (k, r.value);
      forall j | i < j < |ms| ensures ms[j].0 != ms[i].0 {
        if j < |prefix| {
          assert prefix[j].0 != prefix[i].0;
        }
      }
      assert Pairs.IsLast(ms, i) && ms[i] == (k, r.value);
    }
  }

  /** `JsonObject.has`. */
  predicate Has(ms: Members, k: string) {
    Get(ms, k).Some?
  }

  /** `LinkedTreeMap.put`: an existing key keeps its position and takes the new value; a new key goes last. */
  function Put(es: Members, k: string, v: Json): (r: Members)
    ensures forall k' :: Pairs.HasKey(r, k') <==> Pairs.HasKey(es, k') || k' == k
    ensures Pairs.DistinctKeys(es) ==> Pairs.DistinctKeys(r)
    ensures forall i :: 0 <= i < |r| && r[i].0 != k ==> exists j :: 0 <= j < |es| && es[j] == r[i]
    ensures Pairs.DistinctKeys(es) ==> forall i :: 0 <= i < |r| && r[i].0 == k ==> r[i].1 == v
  {
    if |es| == 0 then
      assert [(k, v)][0].0 == k;
      [(k, v)]
    else if es[0].0 == k then
      var r := [(k, v)] + es[1..];
      assert r[0].0 == k && es[0].0 == k;
      assert forall i :: 0 < i < |r| ==> r[i] == es[i];
      r
    else
      var tail := Put(es[1..], k, v);
      PutCons(es, k, v, tail);
      [es[0]] + tail
  }

  /** `put` past a first member with another key: that member stays first and the rest is put into. */
  lemma PutCons(es: Members, k: string, v: Json, tail: Members)
    requires |es| > 0 && es[0].0 != k
    requires forall k' :: Pairs.HasKey(tail, k') <==> Pairs.HasKey(es[1..], k') || k' == k
    requires Pairs.DistinctKeys(es[1..]) ==> Pairs.DistinctKeys(tail)
    requires forall i :: 0 <= i < |tail| && tail[i].0 != k ==> exists j :: 0 <= j < |es[1..]| && es[1..][j] == tail[i]
    requires Pairs.DistinctKeys(es[1..]) ==> forall i :: 0 <= i < |tail| && tail[i].0 == k ==> tail[i].1 == v
    ensures var r := [es[0]] + tail;
      && (forall k' :: Pairs.HasKey(r, k') <==> Pairs.HasKey(es, k') || k' == k)
      && (Pairs.DistinctKeys(es) ==> Pairs.DistinctKeys(r))
      && (forall i :: 0 <= i < |r| && r[i].0 != k ==> exists j :: 0 <= j < |es| && es[j] == r[i])
      && (Pairs.DistinctKeys(es) ==> forall i :: 0 <= i < |r| && r[i].0 == k ==> r[i].1 == v)
  {
    var rest := es[1..];
    var r := [es[0]] + tail;
    assert forall i :: 0 < i < |r| ==> r[i] == tail[i - 1];
    assert forall i :: 0 < i < |es| ==> es[i] == rest[i - 1];
    ConsKeys(es, rest, tail, r, k);
    ConsDistinct(es, rest, tail, r, k);
    ConsOrigin(es, rest, tail, r, k);
    if Pairs.DistinctKeys(es) {
      assert Pairs.DistinctKeys(rest);
    }
  }

  /** `r` is `x` followed by `xs`, stated by index. */
  predicate Consed(x: (string, Json), xs: Members, r: Members) {
    |r| == |xs| + 1 && r[0] == x && forall i :: 0 < i < |r| ==> r[i] == xs[i - 1]
  }

  lemma ConsKeys(es: Members, rest: Members, tail: Members, r: Members, k: string)
    requires |es| > 0 && Consed(es[0], rest, es) && Consed(es[0], tail, r)
    requires forall k' :: Pairs.HasKey(tail, k') <==> Pairs.HasKey(rest, k') || k' == k
    ensures forall k' :: Pairs.HasKey(r, k') <==> Pairs.HasKey(es, k') || k' == k
  {
    forall k' ensures Pairs.HasKey(r, k') <==> Pairs.HasKey(es, k') || k' == k {
      if Pairs.HasKey(r, k') {
        var i :| 0 <= i < |r| && r[i].0 == k';
        if i > 0 {
          assert tail[i - 1].0 == k';
          assert Pairs.HasKey(tail, k');
          if k' != k {
            var x :| 0 <= x < |rest| && rest[x].0 == k';
            assert es[x + 1].0 == k';
          }
        } else {
          assert es[0].0 == k';
        }
      }
      if Pairs.HasKey(es, k') {
        var i :| 0 <= i < |es| && es[i].0 == k';
        if i > 0 {
          assert rest[i - 1].0 == k';
          assert Pairs.HasKey(tail, k');
          var x :| 0 <= x < |tail| && tail[x].0 == k';
          assert r[x + 1].0 == k';
        } else {
          assert r[0].0 == k';
        }
      }
      if k' == k {
        assert Pairs.HasKey(tail, k);
        var i :| 0 <= i < |tail| && tail[i].0 == k;
        assert r[i + 1].0 == k;
      }
    }
  }

  lemma ConsDistinct(es: Members, rest: Members, tail: Members, r: Members, k: string)
    requires |es| > 0 && es[0].0 != k && Consed(es[0], rest, es) && Consed(es[0], tail, r)
    requires forall k' :: Pairs.HasKey(tail, k') <==> Pairs.HasKey(rest, k') || k' == k
    requires Pairs.DistinctKeys(rest) ==> Pairs.DistinctKeys(tail)
    ensures Pairs.DistinctKeys(es) ==> Pairs.DistinctKeys(r)
  {
    if Pairs.DistinctKeys(es) {
      assert Pairs.DistinctKeys(rest) by {
        forall x, y | 0 <= x < y < |rest| ensures rest[x].0 != rest[y].0 {
          assert es[x + 1].0 != es[y + 1].0;
        }
      }
      assert !Pairs.HasKey(rest, es[0].0) by {
        forall x | 0 <= x < |rest| ensures rest[x].0 != es[0].0 {
          assert es[x + 1].0 != es[0].0;
        }
      }
      assert !Pairs.HasKey(tail, es[0].0);
      forall j | 0 < j < |r| ensures r[0].0 != r[j].0 {
        assert r[j] == tail[j - 1];
      }
      forall x, y | 0 < x < y < |r| ensures r[x].0 != r[y].0 {
        assert tail[x - 1].0 != tail[y - 1].0;
      }
    }
  }

  lemma ConsOrigin(es: Members, rest: Members, tail: Members, r: Members, k: string)
    requires |es| > 0 && Consed(es[0], rest, es) && Consed(es[0], tail, r)
    requires forall i :: 0 <= i < |tail| && tail[i].0 != k ==> exists j :: 0 <= j < |rest| && rest[j] == tail[i]
    ensures forall i :: 0 <= i < |r| && r[i].0 != k ==> exists j :: 0 <= j < |es| && es[j] == r[i]
  {
    forall i | 0 <= i < |r| && r[i].0 != k ensures exists j :: 0 <= j < |es| && es[j] == r[i] {
      if i > 0 {
        var j :| 0 <= j < |rest| && rest[j] == tail[i - 1];
        assert es[j + 1] == r[i];
      } else {
        assert es[0] == r[0];
      }
    }
  }

  /** The member list a parsed JsonObject iterates: one entry per key, first position, last value. */
  function Entries(ms: Members): (es: Members)
    ensures Pairs.DistinctKeys(es)
    ensures forall k :: Pairs.HasKey(es, k) <==> Pairs.HasKey(ms, k)
    ensures forall i :: 0 <= i < |es| ==> Get(ms, es[i].0) == Some(es[i].1)
  {
    if |ms| == 0 then []
    else
      var prefix := ms[..|ms| - 1];
      var last := ms[|ms| - 1];
      var before := Entries(prefix);
      var es := Put(before, last.0, last.1);
      assert forall k :: Pairs.HasKey(ms, k) <==> Pairs.HasKey(prefix, k) || k == last.0 by {
        forall k ensures Pairs.HasKey(ms, k) <==> Pairs.HasKey(prefix, k) || k == last.0 {
          if Pairs.HasKey(prefix, k) {
            var i :| 0 <= i < |prefix| && prefix[i].0 == k;
            assert ms[i].0 == k;
          }
          if Pairs.HasKey(ms, k) {
            var i :| 0 <= i < |ms| && ms[i].0 == k;
            if i < |ms| - 1 { assert prefix[i].0 == k; }
          }
        }
      }
      assert forall i :: 0 <= i < |es| ==> Get(ms, es[i].0) == Some(es[i].1) by {
        forall i | 0 <= i < |es| ensures Get(ms, es[i].0) == Some(es[i].1) {
          if es[i].0 != last.0 {
            var j :| 0 <= j < |before| && before[j] == es[i];
          }
        }
      }
      es
  }

  predicate IsPrimitive(j: Json) {
    j.JBool? || j.JNumber? || j.JString?
  }

  /**
   * `JsonElement.getAsString`: a primitive's text; an array of exactly one
   * element delegates to it; null, objects and other arrays throw (None).
   */
  function AsString(j: Json): (r: Option<string>)
    ensures IsPrimitive(j) ==> r.Some?
    ensures j.JNull? || j.JObject? ==> r.None?
  {
    match j
    case JNull => None
    case JBool(b) => Some(if b then "true" else "false")
    case JNumber(t) => Some(t)
    case JString(s) => Some(s)
    case JArray(items) => if |items| == 1 then AsString(items[0]) else None
    case JObject(_) => None
  }

  /** `obj.get(k).getAsString()`: None when the member is absent (a null dereference) or not a string. */
  function GetString(ms: Members, k: string): Option<string> {
    var v :- Get(ms, k);
    AsString(v)
  }

  /** `obj.has(k) ? obj.get(k).getAsString() : dflt`. */
  function GetStringOr(ms: Members, k: string, dflt: string): Option<string> {
    if Has(ms, k) then GetString(ms, k) else Some(dflt)
  }

  /** `obj.getAsJsonObject(k)`: None when absent or when the member is not an object (a cast failure). */
  function GetObject(ms: Members, k: string): Option<Members> {
    match Get(ms, k)
    case Some(JObject(m)) => Some(m)
    case _ => None
  }

  /** `obj.getAsJsonArray(k)`: None when absent or when the member is not an array. */
  function GetArray(ms: Members, k: string): Option<seq<Json>> {
    match Get(ms, k)
    case Some(JArray(a)) => Some(a)
    case _ => None
  }

  /** `element.getAsJsonObject()`: None when the element is not an object. */
  function AsObject(j: Json): Option<Members> {
    match j
    case JObject(m) => Some(m)
    case _ => None
  }
}

/**
 * Key/value pairs folded into a map the way a Java loop of `map.put(k, v)` does it,
 * and the iteration order of a Java map, which the model receives as a parameter.
 */
module Pairs {

  /** The keys that occur in a pair sequence. */
  predicate HasKey<K(==,!new), V>(ps: seq<(K, V)>, k: K) {
    exists i :: 0 <= i < |ps| && ps[i].0 == k
  }

  /** `ps[i]` is the last pair with its key. */
  predicate IsLast<K(==,!new), V>(ps: seq<(K, V)>, i: int) {
    0 <= i < |ps| && forall j :: i < j < |ps| ==> ps[j].0 != ps[i].0
  }

  /** `for (p : ps) map.put(p.key, p.value)` on an empty map. */
  function ToMap<K(==,!new), V>(ps: seq<(K, V)>): (m: map<K, V>)
    ensures forall k :: k in m <==> HasKey(ps, k)
    ensures forall k :: k in m ==> exists i :: 0 <= i < |ps| && ps[i] == (k, m[k])
  {
    if |ps| == 0 then map[]
    else
      var prefix := ps[..|ps| - 1];
      var m := ToMap(prefix)[ps[|ps| - 1].0 := ps[|ps| - 1].1];
      assert forall k :: HasKey(prefix, k) ==> HasKey(ps, k) by {
        forall k | HasKey(prefix, k) ensures HasKey(ps, k) {
          var i :| 0 <= i < |prefix| && prefix[i].0 == k;
          assert ps[i].0 == k;
        }
      }
      assert forall k :: HasKey(ps, k) ==> HasKey(prefix, k) || k == ps[|ps| - 1].0 by {
        forall k | HasKey(ps, k) ensures HasKey(prefix, k) || k == ps[|ps| - 1].0 {
          var i :| 0 <= i < |ps| && ps[i].0 == k;
          if i < |ps| - 1 { assert prefix[i].0 == k; }
        }
      }
      assert forall k :: k in m && k != ps[|ps| - 1].0 ==> exists i :: 0 <= i < |ps| && ps[i] == (k, m[k]) by {
        forall k | k in m && k != ps[|ps| - 1].0 ensures exists i :: 0 <= i < |ps| && ps[i] == (k, m[k]) {
          var i :| 0 <= i < |prefix| && prefix[i] == (k, m[k]);
          assert ps[i] == (k, m[k]);
        }
      }
      m
  }

  /** The pair put last is in the map. */
  lemma ToMapPutLast<K(!new), V>(ps: seq<(K, V)>, p: (K, V))
    ensures p.0 in ToMap(ps + [p]) && ToMap(ps + [p])[p.0] == p.1
  {
    assert (ps + [p])[..|ps|] == ps;
  }

  /** Pairs put afterwards under other keys leave a key's value alone. */
  lemma ToMapKeepsOthers<K(!new), V>(ps: seq<(K, V)>, q: seq<(K, V)>, k: K)
    requires |q| <= 1 && forall j :: 0 <= j < |q| ==> q[j].0 != k
    requires k in ToMap(ps)
    ensures k in ToMap(ps + q) && ToMap(ps + q)[k] == ToMap(ps)[k]
  {
    if |q| == 1 {
      assert (ps + q)[..|ps|] == ps;
    } else {
      assert ps + q == ps;
    }
  }

  /** One step of "the last pair put under a key wins": `p` is put last, or it was already in and what follows has other keys. */
  lemma ToMapLastStep<K(!new), V>(ps: seq<(K, V)>, q: seq<(K, V)>, p: (K, V), atEnd: bool)
    requires atEnd ==> q == [p]
    requires !atEnd ==> |q| <= 1 && (forall j :: 0 <= j < |q| ==> q[j].0 != p.0)
                        && p.0 in ToMap(ps) && ToMap(ps)[p.0] == p.1
    ensures p.0 in ToMap(ps + q) && ToMap(ps + q)[p.0] == p.1
  {
    if atEnd {
      ToMapPutLast(ps, p);
    } else {
      ToMapKeepsOthers(ps, q, p.0);
    }
  }

  /** The last pair with a key decides that key's value. */
  lemma {:induction false} ToMapLastWins<K(!new), V>(ps: seq<(K, V)>, i: int)
    requires IsLast(ps, i)
    ensures ps[i].0 in ToMap(ps) && ToMap(ps)[ps[i].0] == ps[i].1
    decreases |ps|
  {
    if i < |ps| - 1 {
      var prefix := ps[..|ps| - 1];
      assert prefix[i] == ps[i];
      ToMapLastWins(prefix, i);
    }
  }

  /** All keys of `ps` differ. */
  predicate DistinctKeys<K(==,!new), V>(ps: seq<(K, V)>) {
    forall i, j :: 0 <= i < j < |ps| ==> ps[i].0 != ps[j].0
  }

  /** `order` lists every key of `m` exactly once: an iteration order of a Java map. */
  predicate IsOrderOf<K(==,!new), V>(order: seq<K>, m: map<K, V>) {
    && (forall i, j :: 0 <= i < j < |order| ==> order[i] != order[j])
    && (forall k :: k in m ==> k in order)
    && (forall i :: 0 <= i < |order| ==> order[i] in m)
  }

  /** Every map has an iteration order, so requiring one excludes no map. */
  lemma {:induction false} OrderExists<K(!new), V>(m: map<K, V>)
    ensures exists order :: IsOrderOf(order, m)
    decreases |m|
  {
    if |m| == 0 {
      assert IsOrderOf([], m);
    } else {
      var k :| k in m;
      var rest := m - {k};
      assert |rest| < |m|;
      OrderExists(rest);
      var order :| IsOrderOf(order, rest);
      assert IsOrderOf(order + [k], m);
    }
  }

  /** `m.entrySet()` walked in `order`. */
  function EntriesInOrder<K(==,!new), V>(m: map<K, V>, order: seq<K>): (ps: seq<(K, V)>)
    requires IsOrderOf(order, m)
    ensures |ps| == |order|
    ensures forall i :: 0 <= i < |ps| ==> ps[i] == (order[i], m[order[i]])
  {
    seq(|order|, i requires 0 <= i < |order| => (order[i], m[order[i]]))
  }

  /** Copying a map entry by entry, in any iteration order, gives the map back. */
  lemma EntriesRoundTrip<K(!new), V>(m: map<K, V>, order: seq<K>)
    requires IsOrderOf(order, m)
    ensures ToMap(EntriesInOrder(m, order)) == m
  {
    var ps := EntriesInOrder(m, order);
    var r := ToMap(ps);
    forall k | k in m ensures k in r && r[k] == m[k] {
      var i :| 0 <= i < |order| && order[i] == k;
      assert IsLast(ps, i);
      ToMapLastWins(ps, i);
    }
    forall k | k in r ensures k in m {
      var i :| 0 <= i < |ps| && ps[i].0 == k;
    }
  }
}

/**
 * KeyValueInputGroup: the rows of key/value text fields behind the header,
 * body and environment-variable editors, kept as three parallel lists, and
 * the map the rows stand for.
 */
module KeyValueInputGroup {
  import Text
  import Pairs

  /**
   * The rows: key texts, value texts and the remove buttons (by identity),
   * index for index; `next` is the identity the next button receives.
   */
  datatype Rows = Rows(keys: seq<string>, values: seq<string>, buttons: seq<nat>, next: nat)

  /** The three lists have one entry per row, and the buttons are distinct and already issued. */
  predicate Valid(g: Rows) {
    && |g.keys| == |g.values| == |g.buttons|
    && (forall i, j :: 0 <= i < j < |g.buttons| ==> g.buttons[i] != g.buttons[j])
    && (forall i :: 0 <= i < |g.buttons| ==> g.buttons[i] < g.next)
  }

  /** addRow: an empty row with a fresh button at the end. */
  function AddRow(g: Rows): (r: Rows)
    requires Valid(g)
    ensures Valid(r)
    ensures |r.keys| == |g.keys| + 1
    ensures r.keys == g.keys + [""] && r.values == g.values + [""]
    ensures r.buttons[..|g.buttons|] == g.buttons && r.buttons[|g.buttons|] !in g.buttons
  {
    Rows(g.keys + [""], g.values + [""], g.buttons + [g.next], g.next + 1)
  }

  /** The constructor: a group starts with a single empty row. */
  function Initial(): (r: Rows)
    ensures Valid(r) && r.keys == [""] && r.values == [""]
  {
    AddRow(Rows([], [], [], 0))
  }

  /**
   * What a text field holds once given `s`: a single-line field's document
   * turns every newline into a space, whether the text is set or typed.
   */
  function FieldText(s: string): (r: string)
    ensures |r| == |s| && '\n' !in r
    ensures forall i :: 0 <= i < |s| ==> r[i] == (if s[i] == '\n' then ' ' else s[i])
  {
    var r := seq(|s|, i requires 0 <= i < |s| => if s[i] == '\n' then ' ' else s[i]);
    assert forall i :: 0 <= i < |r| ==> r[i] != '\n';
    r
  }

  /** Text without a newline enters a field unchanged. */
  lemma FieldTextKeeps(s: string)
    requires '\n' !in s
    ensures FieldText(s) == s
  {
  }

  /** The user types into row `i`. */
  function Edit(g: Rows, i: nat, key: string, value: string): (r: Rows)
    requires Valid(g) && i < |g.keys|
    ensures Valid(r) && r.buttons == g.buttons
    ensures r.keys == g.keys[i := FieldText(key)] && r.values == g.values[i := FieldText(value)]
  {
    g.(keys := g.keys[i := FieldText(key)], values := g.values[i := FieldText(value)])
  }

  /** `removeButtons.indexOf(b)`: the first index holding `b`, or -1. */
  function IndexOf(bs: seq<nat>, b: nat): (r: int)
    ensures -1 <= r < |bs|
    ensures r >= 0 ==> bs[r] == b && forall j :: 0 <= j < r ==> bs[j] != b
    ensures r == -1 <==> b !in bs
    decreases |bs|
  {
    if |bs| == 0 then -1
    else if bs[0] == b then 0
    else
      var r := IndexOf(bs[1..], b);
      if r < 0 then -1 else r + 1
  }

  /** The remove button `b` pressed: its row leaves all three lists; the other rows keep their order. */
  function RemoveRow(g: Rows, b: nat): (r: Rows)
    requires Valid(g)
    ensures Valid(r)
    ensures b !in g.buttons ==> r == g
    ensures b in g.buttons ==>
      var i := IndexOf(g.buttons, b);
      && r.keys == g.keys[..i] + g.keys[i + 1..]
      && r.values == g.values[..i] + g.values[i + 1..]
      && r.buttons == g.buttons[..i] + g.buttons[i + 1..]
      && b !in r.buttons
  {
    var i := IndexOf(g.buttons, b);
    if i < 0 then g
    else
      DeleteKeepsFresh(g.buttons, i, g.next);
      Rows(g.keys[..i] + g.keys[i + 1..], g.values[..i] + g.values[i + 1..], g.buttons[..i] + g.buttons[i + 1..], g.next)
  }

  /** Deleting one button keeps the others distinct and below `next`, and the deleted one is gone. */
  lemma DeleteKeepsFresh(bs: seq<nat>, i: nat, next: nat)
    requires i < |bs|
    requires forall x, y :: 0 <= x < y < |bs| ==> bs[x] != bs[y]
    requires forall x :: 0 <= x < |bs| ==> bs[x] < next
    ensures var r := bs[..i] + bs[i + 1..];
      && (forall x, y :: 0 <= x < y < |r| ==> r[x] != r[y])
      && (forall x :: 0 <= x < |r| ==> r[x] < next)
      && bs[i] !in r
  {
    var r := bs[..i] + bs[i + 1..];
    assert forall x :: 0 <= x < |r| ==> r[x] == bs[if x < i then x else x + 1];
  }

  // ----- rows to map -----
  // The fold is stated over any trimming function `trim`; the group uses String.trim.

  /** Row `i` counts: its trimmed key and trimmed value are both non-empty. */
  predicate Included(keys: seq<string>, values: seq<string>, trim: string -> string, i: int)
    requires |keys| == |values|
  {
    0 <= i < |keys| && trim(keys[i]) != "" && trim(values[i]) != ""
  }

  /** Row `i` counts and no later counting row has the same trimmed key. */
  predicate LastIncluded(keys: seq<string>, values: seq<string>, trim: string -> string, i: int)
    requires |keys| == |values|
  {
    Included(keys, values, trim, i)
    && forall j :: i < j < |keys| && Included(keys, values, trim, j) ==> trim(keys[j]) != trim(keys[i])
  }

  /** The loop of getKeyValuePairs over the rows. */
  function CollectRows(keys: seq<string>, values: seq<string>, trim: string -> string): map<string, string>
    requires |keys| == |values|
    decreases |keys|
  {
    if |keys| == 0 then map[]
    else
      var n := |keys| - 1;
      var m := CollectRows(keys[..n], values[..n], trim);
      var k := trim(keys[n]);
      var v := trim(values[n]);
      if k != "" && v != "" then m[k := v] else m
  }

  /**
   * getKeyValuePairs: the trimmed key of every row whose trimmed key and
   * value are both non-empty, mapped to the trimmed value of the last such row.
   */
  function GetKeyValuePairs(g: Rows): (r: map<string, string>)
    requires Valid(g)
    ensures forall k :: k in r <==> exists i :: Included(g.keys, g.values, Text.Trim, i) && Text.Trim(g.keys[i]) == k
    ensures forall i :: LastIncluded(g.keys, g.values, Text.Trim, i) ==>
      Text.Trim(g.keys[i]) in r && r[Text.Trim(g.keys[i])] == Text.Trim(g.values[i])
  {
    var r := CollectRows(g.keys, g.values, Text.Trim);
    forall k ensures k in r <==> exists i :: Included(g.keys, g.values, Text.Trim, i) && Text.Trim(g.keys[i]) == k {
      CollectKeys(g.keys, g.values, Text.Trim, k);
    }
    forall i | LastIncluded(g.keys, g.values, Text.Trim, i)
      ensures Text.Trim(g.keys[i]) in r && r[Text.Trim(g.keys[i])] == Text.Trim(g.values[i])
    {
      CollectLastWins(g.keys, g.values, Text.Trim, i);
    }
    r
  }

  /**
   * Typing a key and a value into row `i` makes getKeyValuePairs map the
   * trimmed key, as the field holds it, to the trimmed value, unless a later
   * row that counts has the same key.
   */
  lemma EditedRowCollected(g: Rows, i: nat, key: string, value: string)
    requires Valid(g) && i < |g.keys|
    requires Text.Trim(FieldText(key)) != "" && Text.Trim(FieldText(value)) != ""
    requires forall j :: i < j < |g.keys| && Included(g.keys, g.values, Text.Trim, j) ==>
      Text.Trim(g.keys[j]) != Text.Trim(FieldText(key))
    ensures var m := GetKeyValuePairs(Edit(g, i, key, value));
      Text.Trim(FieldText(key)) in m && m[Text.Trim(FieldText(key))] == Text.Trim(FieldText(value))
  {
    var r := Edit(g, i, key, value);
    forall j | i < j < |r.keys| && Included(r.keys, r.values, Text.Trim, j)
      ensures Text.Trim(r.keys[j]) != Text.Trim(r.keys[i])
    {
      assert r.keys[j] == g.keys[j] && r.values[j] == g.values[j];
    }
    assert LastIncluded(r.keys, r.values, Text.Trim, i);
  }

  /** The collected keys are exactly the trimmed keys of the rows that count. */
  lemma {:induction false} CollectKeys(keys: seq<string>, values: seq<string>, trim: string -> string, k: string)
    requires |keys| == |values|
    ensures k in CollectRows(keys, values, trim) <==> exists i :: Included(keys, values, trim, i) && trim(keys[i]) == k
    decreases |keys|
  {
    if |keys| > 0 {
      var n := |keys| - 1;
      var ks, vs := keys[..n], values[..n];
      CollectKeys(ks, vs, trim, k);
      if exists i :: Included(keys, values, trim, i) && trim(keys[i]) == k {
        var i :| Included(keys, values, trim, i) && trim(keys[i]) == k;
        if i < n {
          assert ks[i] == keys[i] && vs[i] == values[i];
          assert Included(ks, vs, trim, i);
        }
      }
      if exists i :: Included(ks, vs, trim, i) && trim(ks[i]) == k {
        var i :| Included(ks, vs, trim, i) && trim(ks[i]) == k;
        assert ks[i] == keys[i] && vs[i] == values[i];
        assert Included(keys, values, trim, i);
      }
    }
  }

  /** The last row that counts with a key supplies its trimmed value. */
  lemma {:induction false} CollectLastWins(keys: seq<string>, values: seq<string>, trim: string -> string, i: int)
    requires |keys| == |values| && LastIncluded(keys, values, trim, i)
    ensures trim(keys[i]) in CollectRows(keys, values, trim)
    ensures CollectRows(keys, values, trim)[trim(keys[i])] == trim(values[i])
    decreases |keys|
  {
    var n := |keys| - 1;
    var ks, vs := keys[..n], values[..n];
    if i < n {
      assert ks[i] == keys[i] && vs[i] == values[i];
      assert LastIncluded(ks, vs, trim, i) by {
        assert Included(ks, vs, trim, i);
        forall j | i < j < n && Included(ks, vs, trim, j)
          ensures trim(ks[j]) != trim(ks[i])
        {
          assert ks[j] == keys[j] && vs[j] == values[j];
          assert Included(keys, values, trim, j);
        }
      }
      CollectLastWins(ks, vs, trim, i);
    }
  }

  /** Maps the rows can hold unchanged: keys and values non-empty, trimmed and free of newlines. */
  predicate Clean(m: map<string, string>, trim: string -> string) {
    forall k :: k in m ==> k != "" && trim(k) == k && m[k] != "" && trim(m[k]) == m[k] && '\n' !in k && '\n' !in m[k]
  }

  /** setKeyValuePairs: one empty row for an empty map, else one row per entry in iteration order. */
  function SetKeyValuePairs(g: Rows, m: map<string, string>, order: seq<string>): (r: Rows)
    requires Valid(g) && Pairs.IsOrderOf(order, m)
    ensures Valid(r)
    ensures |m| == 0 ==> r.keys == [""] && r.values == [""]
    ensures |m| > 0 ==> (|r.keys| == |r.values| == |order|
      && forall i :: 0 <= i < |order| ==> r.keys[i] == FieldText(order[i]) && r.values[i] == FieldText(m[order[i]]))
  {
    if |m| == 0 then AddRow(Rows([], [], [], g.next))
    else
      var n := |order|;
      assert order[0] in m;
      var keys := seq(n, i requires 0 <= i < n => FieldText(order[i]));
      var values := seq(n, i requires 0 <= i < n => FieldText(m[order[i]]));
      var buttons := seq(n, i requires 0 <= i < n => g.next + i);
      Rows(keys, values, buttons, g.next + n)
  }

  /** clear: a single empty row. */
  function Clear(g: Rows): (r: Rows)
    requires Valid(g)
    ensures Valid(r) && r.keys == [""] && r.values == [""]
  {
    AddRow(Rows([], [], [], g.next))
  }

  /** Rows of which none counts stand for the empty map. */
  lemma {:induction false} CollectNone(keys: seq<string>, values: seq<string>, trim: string -> string)
    requires |keys| == |values|
    requires forall i :: 0 <= i < |keys| ==> !Included(keys, values, trim, i)
    ensures CollectRows(keys, values, trim) == map[]
  {
    forall k ensures k !in CollectRows(keys, values, trim) {
      CollectKeys(keys, values, trim, k);
    }
  }

  /** After clear the group stands for the empty map. */
  lemma ClearCollectsNothing(g: Rows)
    requires Valid(g)
    ensures GetKeyValuePairs(Clear(g)) == map[]
  {
    var r := Clear(g);
    assert Text.Trim("") == "";
    CollectNone(r.keys, r.values, Text.Trim);
  }

  /** Rows with distinct keys, all fixed points of `trim` and non-empty, stand for the map they list. */
  lemma CollectClean(keys: seq<string>, values: seq<string>, trim: string -> string)
    requires |keys| == |values|
    requires forall i, j :: 0 <= i < j < |keys| ==> keys[i] != keys[j]
    requires forall i :: 0 <= i < |keys| ==> trim(keys[i]) == keys[i] != "" && trim(values[i]) == values[i] != ""
    ensures forall i :: 0 <= i < |keys| ==>
      keys[i] in CollectRows(keys, values, trim) && CollectRows(keys, values, trim)[keys[i]] == values[i]
    ensures forall k :: k in CollectRows(keys, values, trim) ==> k in keys
  {
    forall i | 0 <= i < |keys|
      ensures keys[i] in CollectRows(keys, values, trim) && CollectRows(keys, values, trim)[keys[i]] == values[i]
    {
      assert LastIncluded(keys, values, trim, i);
      CollectLastWins(keys, values, trim, i);
    }
    forall k | k in CollectRows(keys, values, trim) ensures k in keys {
      CollectKeys(keys, values, trim, k);
    }
  }

  /** Texts without newlines enter their fields unchanged, one field per text. */
  lemma FieldTextsKeep(xs: seq<string>, ys: seq<string>)
    requires |xs| == |ys|
    requires forall i :: 0 <= i < |xs| ==> '\n' !in xs[i] && ys[i] == FieldText(xs[i])
    ensures ys == xs
  {
    forall i | 0 <= i < |xs| ensures ys[i] == xs[i] {
      FieldTextKeeps(xs[i]);
    }
  }

  /** A map free of newlines enters the rows unchanged: the keys are the iteration order and the values its entries. */
  lemma SetKeepsClean(g: Rows, m: map<string, string>, order: seq<string>)
    requires Valid(g) && Pairs.IsOrderOf(order, m) && |m| > 0
    requires forall k :: k in m ==> '\n' !in k && '\n' !in m[k]
    ensures SetKeyValuePairs(g, m, order).keys == order
    ensures forall i :: 0 <= i < |order| ==> SetKeyValuePairs(g, m, order).values[i] == m[order[i]]
  {
    var r := SetKeyValuePairs(g, m, order);
    var entries := seq(|order|, i requires 0 <= i < |order| => m[order[i]]);
    forall i | 0 <= i < |order| ensures '\n' !in order[i] && '\n' !in entries[i] {
      assert order[i] in m;
    }
    FieldTextsKeep(order, r.keys);
    FieldTextsKeep(entries, r.values);
  }

  /** Writing a clean map into the rows and reading them back gives the map. */
  lemma SetGetRoundTrip(g: Rows, m: map<string, string>, order: seq<string>)
    requires Valid(g) && Pairs.IsOrderOf(order, m) && Clean(m, Text.Trim)
    ensures GetKeyValuePairs(SetKeyValuePairs(g, m, order)) == m
  {
    if |m| == 0 {
      ClearCollectsNothing(g);
    } else {
      SetKeepsClean(g, m, order);
      var r := SetKeyValuePairs(g, m, order);
      CollectOrdered(order, r.values, m, Text.Trim);
    }
  }

  /** A value holding a newline does not survive the trip: the field gives it back with a space. */
  lemma NewlineComesBackAsSpace(g: Rows)
    requires Valid(g)
    ensures GetKeyValuePairs(SetKeyValuePairs(g, map["k" := "a\nb"], ["k"])) == map["k" := "a b"]
  {
    var r := SetKeyValuePairs(g, map["k" := "a\nb"], ["k"]);
    assert r.keys == ["k"] && r.values == ["a b"] by {
      NewlineEntersAsSpace();
    }
    CollectExample();
  }

  /** The single example row collects to its trimmed pair. */
  lemma CollectExample()
    ensures CollectRows(["k"], ["a b"], Text.Trim) == map["k" := "a b"]
  {
    Text.TrimKeeps("k");
    Text.TrimKeeps("a b");
    assert ["k"][..0] == [] && ["a b"][..0] == [];
  }

  /** The field turns the newline of the example value into a space and keeps the key. */
  lemma NewlineEntersAsSpace()
    ensures FieldText("k") == "k" && FieldText("a\nb") == "a b"
  {
    FieldTextKeeps("k");
    var t := FieldText("a\nb");
    assert t[0] == 'a' && t[1] == ' ' && t[2] == 'b';
  }

  /** Rows listing a clean map in an iteration order collect to that map. */
  lemma CollectOrdered(order: seq<string>, values: seq<string>, m: map<string, string>, trim: string -> string)
    requires Pairs.IsOrderOf(order, m) && Clean(m, trim)
    requires |values| == |order| && forall i :: 0 <= i < |order| ==> values[i] == m[order[i]]
    ensures CollectRows(order, values, trim) == m
  {
    forall i | 0 <= i < |order|
      ensures trim(order[i]) == order[i] != "" && trim(values[i]) == values[i] != ""
    {
      assert order[i] in m;
    }
    CollectClean(order, values, trim);
    var got := CollectRows(order, values, trim);
    forall k | k in m ensures k in got && got[k] == m[k] {
      var i :| 0 <= i < |order| && order[i] == k;
    }
  }
}

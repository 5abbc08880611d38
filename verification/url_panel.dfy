/**
 * UrlPanel: the sidebar listing saved calls. Calls are shown under their group
 * header (groups in first-appearance order, collapsible) followed by the calls
 * without a group; dropping one call onto another groups the two.
 */
module UrlPanel {
  import opened Wrappers
  import Text
  import Pairs
  import Model

  type Store = map<string, Model.ApiCall>

  /** The group a call is listed under: its group name unless that is null or blank. */
  function GroupKey(call: Model.ApiCall): (r: Option<string>)
    ensures r.Some? <==> call.group.Some? && !Text.IsBlank(call.group.value)
    ensures r.Some? ==> r == call.group
  {
    if call.group.Some? && !Text.IsBlank(call.group.value) then call.group else None
  }

  // ---------------------------------------------------------------------------
  // Reference definitions: the calls of one group, the calls of none.

  /** The names in `order` listed under group `g`, in order. */
  function Members(order: seq<string>, groupOf: string -> Option<string>, g: string): (r: seq<string>)
    ensures forall k :: k in r ==> k in order && groupOf(k) == Some(g)
    decreases |order|
  {
    if |order| == 0 then []
    else
      var k := order[|order| - 1];
      Members(order[..|order| - 1], groupOf, g) + (if groupOf(k) == Some(g) then [k] else [])
  }

  /** The names in `order` without a group, in order. */
  function Ungrouped(order: seq<string>, groupOf: string -> Option<string>): (r: seq<string>)
    ensures forall k :: k in r ==> k in order && groupOf(k).None?
    decreases |order|
  {
    if |order| == 0 then []
    else
      var k := order[|order| - 1];
      Ungrouped(order[..|order| - 1], groupOf) + (if groupOf(k).None? then [k] else [])
  }

  /** Some name in `order` is listed under `g`. */
  predicate Used(order: seq<string>, groupOf: string -> Option<string>, g: string) {
    exists i :: 0 <= i < |order| && groupOf(order[i]) == Some(g)
  }

  // ---------------------------------------------------------------------------
  // The partition built by loadApiCallsList: a LinkedHashMap of groups, plus the rest.

  datatype Partition = Partition(names: seq<string>, members: map<string, seq<string>>, ungrouped: seq<string>)

  predicate WellFormed(p: Partition) {
    && (forall i, j :: 0 <= i < j < |p.names| ==> p.names[i] != p.names[j])
    && (forall g :: g in p.members ==> g in p.names)
    && (forall g :: g in p.names ==> g in p.members)
  }

  /** One pass over the calls in map order, `computeIfAbsent(group).add(name)` or `ungrouped.add(name)`. */
  function Partitioned(order: seq<string>, groupOf: string -> Option<string>): (p: Partition)
    ensures WellFormed(p)
    ensures forall g :: g in p.members ==> |p.members[g]| > 0
    decreases |order|
  {
    if |order| == 0 then Partition([], map[], [])
    else
      var k := order[|order| - 1];
      var p := Partitioned(order[..|order| - 1], groupOf);
      match groupOf(k)
      case None => p.(ungrouped := p.ungrouped + [k])
      case Some(g) =>
        if g in p.members then p.(members := p.members[g := p.members[g] + [k]])
        else p.(names := p.names + [g], members := p.members[g := [k]])
  }

  lemma UsedSnoc(order: seq<string>, groupOf: string -> Option<string>, g: string)
    requires |order| > 0
    ensures Used(order, groupOf, g) <==>
      Used(order[..|order| - 1], groupOf, g) || groupOf(order[|order| - 1]) == Some(g)
  {
    var front := order[..|order| - 1];
    if Used(order, groupOf, g) && groupOf(order[|order| - 1]) != Some(g) {
      var i :| 0 <= i < |order| && groupOf(order[i]) == Some(g);
      assert front[i] == order[i];
    }
    if Used(front, groupOf, g) {
      var i :| 0 <= i < |front| && groupOf(front[i]) == Some(g);
      assert order[i] == front[i];
    }
  }

  /** A group is listed iff some call uses it, and it lists exactly the calls that do, in map order. */
  lemma {:induction false} PartitionGroups(order: seq<string>, groupOf: string -> Option<string>, g: string)
    ensures g in Partitioned(order, groupOf).members <==> Used(order, groupOf, g)
    ensures g in Partitioned(order, groupOf).members ==>
      Partitioned(order, groupOf).members[g] == Members(order, groupOf, g)
    decreases |order|
  {
    if |order| > 0 {
      var front := order[..|order| - 1];
      var k := order[|order| - 1];
      var q := Partitioned(front, groupOf);
      UsedSnoc(order, groupOf, g);
      PartitionGroups(front, groupOf, g);
      assert Members(order, groupOf, g) == Members(front, groupOf, g) + (if groupOf(k) == Some(g) then [k] else []);
      if groupOf(k) == Some(g) && g !in q.members {
        MembersOfUnused(front, groupOf, g);
      }
    }
  }

  lemma {:induction false} MembersOfUnused(order: seq<string>, groupOf: string -> Option<string>, g: string)
    requires !Used(order, groupOf, g)
    ensures Members(order, groupOf, g) == []
    decreases |order|
  {
    if |order| > 0 {
      UsedSnoc(order, groupOf, g);
      MembersOfUnused(order[..|order| - 1], groupOf, g);
    }
  }

  /** The ungrouped list holds exactly the calls without a group, in map order. */
  lemma {:induction false} PartitionUngrouped(order: seq<string>, groupOf: string -> Option<string>)
    ensures Partitioned(order, groupOf).ungrouped == Ungrouped(order, groupOf)
    decreases |order|
  {
    if |order| > 0 {
      PartitionUngrouped(order[..|order| - 1], groupOf);
    }
  }

  lemma NamesSnoc(order: seq<string>, groupOf: string -> Option<string>)
    requires |order| > 0
    ensures var p := Partitioned(order, groupOf);
      var q := Partitioned(order[..|order| - 1], groupOf);
      var k := order[|order| - 1];
      || p.names == q.names
      || (groupOf(k).Some? && groupOf(k).value !in q.members && p.names == q.names + [groupOf(k).value])
  {
  }

  /** The group names appear in the order their first call does. */
  lemma {:induction false} FirstAppearanceOrder(order: seq<string>, groupOf: string -> Option<string>, i: nat, j: nat, b: nat)
    requires i < j < |Partitioned(order, groupOf).names|
    requires b < |order| && groupOf(order[b]) == Some(Partitioned(order, groupOf).names[j])
    ensures exists a :: 0 <= a < b && groupOf(order[a]) == Some(Partitioned(order, groupOf).names[i])
    decreases |order|
  {
    var front := order[..|order| - 1];
    var k := order[|order| - 1];
    var p := Partitioned(order, groupOf);
    var q := Partitioned(front, groupOf);
    NamesSnoc(order, groupOf);
    var gi := p.names[i];
    assert gi == q.names[i] && gi in q.members;
    PartitionGroups(front, groupOf, gi);
    var a :| 0 <= a < |front| && groupOf(front[a]) == Some(gi);
    assert order[a] == front[a];
    if b < |front| {
      assert front[b] == order[b];
      if j == |q.names| {
        // then names[j] is new at k, so no call in `front` uses it
        var gj := p.names[j];
        PartitionGroups(front, groupOf, gj);
        assert Used(front, groupOf, gj);
      } else {
        FirstAppearanceOrder(front, groupOf, i, j, b);
        var a' :| 0 <= a' < b && groupOf(front[a']) == Some(gi);
        assert order[a'] == front[a'];
      }
    }
  }

  /** The members of every group, group by group, in `names` order. */
  function Flatten(names: seq<string>, members: map<string, seq<string>>): (r: seq<string>)
    requires forall g :: g in names ==> g in members
    decreases |names|
  {
    if |names| == 0 then [] else members[names[0]] + Flatten(names[1..], members)
  }

  lemma {:induction false} FlattenSame(names: seq<string>, m: map<string, seq<string>>, m': map<string, seq<string>>)
    requires forall g :: g in names ==> g in m && g in m' && m[g] == m'[g]
    ensures Flatten(names, m) == Flatten(names, m')
    decreases |names|
  {
    if |names| > 0 {
      FlattenSame(names[1..], m, m');
    }
  }

  lemma {:induction false} FlattenSnoc(names: seq<string>, m: map<string, seq<string>>, g: string)
    requires forall h :: h in names + [g] ==> h in m
    ensures Flatten(names + [g], m) == Flatten(names, m) + m[g]
    decreases |names|
  {
    if |names| == 0 {
      assert names + [g] == [g];
    } else {
      assert (names + [g])[1..] == names[1..] + [g];
      FlattenSnoc(names[1..], m, g);
    }
  }

  lemma {:induction false} FlattenGrow(names: seq<string>, m: map<string, seq<string>>, g: string, k: string)
    requires forall h :: h in names ==> h in m
    requires forall i, j :: 0 <= i < j < |names| ==> names[i] != names[j]
    requires g in names
    ensures multiset(Flatten(names, m[g := m[g] + [k]])) == multiset(Flatten(names, m)) + multiset{k}
    decreases |names|
  {
    var m' := m[g := m[g] + [k]];
    if names[0] == g {
      assert forall h :: h in names[1..] ==> h != g by {
        forall h | h in names[1..] ensures h != g {
          var x :| 0 <= x < |names[1..]| && names[1..][x] == h;
          assert names[x + 1] == h;
        }
      }
      FlattenSame(names[1..], m, m');
    } else {
      assert g in names[1..] by {
        var x :| 0 <= x < |names| && names[x] == g;
        assert names[1..][x - 1] == g;
      }
      FlattenGrow(names[1..], m, g, k);
    }
  }

  /** Every call lands in exactly one place: its group's list or the ungrouped list. */
  lemma {:induction false} PartitionIsPermutation(order: seq<string>, groupOf: string -> Option<string>)
    ensures var p := Partitioned(order, groupOf);
      multiset(Flatten(p.names, p.members) + p.ungrouped) == multiset(order)
    decreases |order|
  {
    if |order| > 0 {
      var front := order[..|order| - 1];
      var k := order[|order| - 1];
      assert order == front + [k];
      var p := Partitioned(order, groupOf);
      var q := Partitioned(front, groupOf);
      PartitionIsPermutation(front, groupOf);
      match groupOf(k)
      case None =>
      case Some(g) =>
        if g in q.members {
          FlattenGrow(q.names, q.members, g, k);
        } else {
          FlattenSame(q.names, q.members, p.members);
          FlattenSnoc(q.names, p.members, g);
        }
    }
  }

  // ---------------------------------------------------------------------------
  // The rows shown in the list.

  datatype Row = Header(title: string, count: nat, expanded: bool) | Item(name: string, group: Option<string>)

  /** `groupExpandedState.getOrDefault(group, true)`. */
  function Expanded(state: map<string, bool>, g: string): bool {
    if g in state then state[g] else true
  }

  /** A click on a group header flips that group and no other. */
  function Toggle(state: map<string, bool>, g: string): (r: map<string, bool>)
    ensures Expanded(r, g) == !Expanded(state, g)
    ensures forall h :: h != g ==> Expanded(r, h) == Expanded(state, h)
  {
    state[g := !Expanded(state, g)]
  }

  function Items(names: seq<string>, group: Option<string>): (r: seq<Row>)
    ensures |r| == |names|
    ensures forall i :: 0 <= i < |r| ==> r[i] == Item(names[i], group)
  {
    seq(|names|, i requires 0 <= i < |names| => Item(names[i], group))
  }

  /** A group header and, when the group is expanded, its members. */
  function GroupBlock(g: string, members: map<string, seq<string>>, state: map<string, bool>): seq<Row>
    requires g in members
  {
    [Header(g, |members[g]|, Expanded(state, g))] + (if Expanded(state, g) then Items(members[g], Some(g)) else [])
  }

  function GroupRows(names: seq<string>, members: map<string, seq<string>>, state: map<string, bool>): seq<Row>
    requires forall g :: g in names ==> g in members
    decreases |names|
  {
    if |names| == 0 then [] else GroupBlock(names[0], members, state) + GroupRows(names[1..], members, state)
  }

  /** Headers with their (expanded) members, then the ungrouped calls. */
  function Render(p: Partition, state: map<string, bool>): seq<Row>
    requires WellFormed(p)
  {
    GroupRows(p.names, p.members, state) + Items(p.ungrouped, None)
  }

  /** The group each saved call is listed under. */
  function GroupOf(store: Store): string -> Option<string> {
    k => if k in store then GroupKey(store[k]) else None
  }

  /** A listed group's header appears among the group rows, with its size and state. */
  lemma {:induction false} HeaderListed(names: seq<string>, members: map<string, seq<string>>, state: map<string, bool>, g: string)
    requires forall h :: h in names ==> h in members
    requires g in names
    ensures Header(g, |members[g]|, Expanded(state, g)) in GroupRows(names, members, state)
    decreases |names|
  {
    var block := GroupBlock(names[0], members, state);
    var rest := GroupRows(names[1..], members, state);
    assert GroupRows(names, members, state) == block + rest;
    if names[0] == g {
      assert block[0] == Header(g, |members[g]|, Expanded(state, g));
    } else {
      assert g in names[1..] by {
        var x :| 0 <= x < |names| && names[x] == g;
        assert names[1..][x - 1] == g;
      }
      HeaderListed(names[1..], members, state, g);
    }
  }

  /** Every header among the group rows is one of the listed groups'. */
  lemma {:induction false} HeadersFromNames(names: seq<string>, members: map<string, seq<string>>, state: map<string, bool>, r: Row)
    requires forall h :: h in names ==> h in members
    requires r in GroupRows(names, members, state) && r.Header?
    ensures r.title in names
    decreases |names|
  {
    var block := GroupBlock(names[0], members, state);
    var rest := GroupRows(names[1..], members, state);
    assert GroupRows(names, members, state) == block + rest;
    if r in rest {
      HeadersFromNames(names[1..], members, state, r);
    } else {
      assert forall x :: x in block[1..] ==> x.Item?;
      assert r == block[0];
    }
  }

  /**
   * loadApiCallsList: the rows for the saved calls, iterated in `order`. The
   * headers are exactly the groups some call uses, each counting its calls,
   * and the list ends with the calls without a group, in map order.
   */
  function LoadApiCallsList(store: Store, order: seq<string>, state: map<string, bool>): (rows: seq<Row>)
    requires Pairs.IsOrderOf(order, store)
    ensures var u := Ungrouped(order, GroupOf(store));
      |u| <= |rows| && rows[|rows| - |u|..] == Items(u, None)
    ensures forall g :: Used(order, GroupOf(store), g) ==>
      Header(g, |Members(order, GroupOf(store), g)|, Expanded(state, g)) in rows
    ensures forall r :: r in rows && r.Header? ==> Used(order, GroupOf(store), r.title)
  {
    var p := Partitioned(order, GroupOf(store));
    var groups := GroupRows(p.names, p.members, state);
    PartitionUngrouped(order, GroupOf(store));
    assert (groups + Items(p.ungrouped, None))[|groups|..] == Items(p.ungrouped, None);
    forall g | Used(order, GroupOf(store), g)
      ensures Header(g, |Members(order, GroupOf(store), g)|, Expanded(state, g)) in groups + Items(p.ungrouped, None)
    {
      PartitionGroups(order, GroupOf(store), g);
      HeaderListed(p.names, p.members, state, g);
    }
    forall r | r in groups + Items(p.ungrouped, None) && r.Header?
      ensures Used(order, GroupOf(store), r.title)
    {
      assert r in groups;
      HeadersFromNames(p.names, p.members, state, r);
      PartitionGroups(order, GroupOf(store), r.title);
    }
    Render(p, state)
  }

  /** The names of the item rows, top to bottom. */
  function ItemNames(rows: seq<Row>): (r: seq<string>)
    ensures |r| <= |rows|
    decreases |rows|
  {
    if |rows| == 0 then []
    else (if rows[0].Item? then [rows[0].name] else []) + ItemNames(rows[1..])
  }

  lemma {:induction false} ItemNamesAppend(a: seq<Row>, b: seq<Row>)
    ensures ItemNames(a + b) == ItemNames(a) + ItemNames(b)
    decreases |a|
  {
    if |a| == 0 {
      assert a + b == b;
    } else {
      var ab := a + b;
      assert ab[0] == a[0];
      assert ab[1..] == a[1..] + b;
      ItemNamesAppend(a[1..], b);
      var h := if a[0].Item? then [a[0].name] else [];
      assert ItemNames(ab) == h + (ItemNames(a[1..]) + ItemNames(b));
      assert ItemNames(a) == h + ItemNames(a[1..]);
    }
  }

  lemma {:induction false} ItemNamesItems(names: seq<string>, group: Option<string>)
    ensures ItemNames(Items(names, group)) == names
    decreases |names|
  {
    if |names| > 0 {
      assert Items(names, group)[1..] == Items(names[1..], group);
      ItemNamesItems(names[1..], group);
    }
  }

  /** The items of one block: the members when expanded, nothing when collapsed. */
  lemma BlockItems(g: string, members: map<string, seq<string>>, state: map<string, bool>)
    requires g in members
    ensures ItemNames(GroupBlock(g, members, state)) == if Expanded(state, g) then members[g] else []
  {
    var head := [Header(g, |members[g]|, Expanded(state, g))];
    var tail := if Expanded(state, g) then Items(members[g], Some(g)) else [];
    assert ItemNames(head) == [] by {
      assert head[1..] == [];
    }
    ItemNamesAppend(head, tail);
    ItemNamesItems(members[g], Some(g));
  }

  /** With every group expanded, the items are the group members in group order. */
  lemma {:induction false} ExpandedRowsAreFlatten(names: seq<string>, members: map<string, seq<string>>, state: map<string, bool>)
    requires forall g :: g in names ==> g in members && Expanded(state, g)
    ensures ItemNames(GroupRows(names, members, state)) == Flatten(names, members)
    decreases |names|
  {
    if |names| > 0 {
      BlockItems(names[0], members, state);
      ItemNamesAppend(GroupBlock(names[0], members, state), GroupRows(names[1..], members, state));
      ExpandedRowsAreFlatten(names[1..], members, state);
    }
  }

  /** With nothing collapsed, every saved call is listed exactly once. */
  lemma EveryCallListedOnce(store: Store, order: seq<string>, state: map<string, bool>)
    requires Pairs.IsOrderOf(order, store)
    requires forall g :: g in state ==> state[g]
    ensures multiset(ItemNames(LoadApiCallsList(store, order, state))) == multiset(order)
  {
    var groupOf := GroupOf(store);
    var p := Partitioned(order, groupOf);
    ItemNamesAppend(GroupRows(p.names, p.members, state), Items(p.ungrouped, None));
    ItemNamesItems(p.ungrouped, None);
    ExpandedRowsAreFlatten(p.names, p.members, state);
    PartitionIsPermutation(order, groupOf);
  }

  /** A collapsed group shows its header and none of its calls. */
  lemma {:induction false} CollapsedHidesMembers(names: seq<string>, members: map<string, seq<string>>, state: map<string, bool>, g: string)
    requires forall h :: h in names ==> h in members
    requires !Expanded(state, g)
    ensures forall r :: r in GroupRows(names, members, state) && r.Item? ==> r.group != Some(g)
    ensures g in names ==> Header(g, |members[g]|, false) in GroupRows(names, members, state)
    decreases |names|
  {
    if |names| > 0 {
      var h := names[0];
      var block := GroupBlock(h, members, state);
      var rest := GroupRows(names[1..], members, state);
      assert GroupRows(names, members, state) == block + rest;
      assert forall r :: r in block && r.Item? ==> r.group == Some(h) && Expanded(state, h);
      CollapsedHidesMembers(names[1..], members, state, g);
      if h == g {
        assert block[0] == Header(g, |members[g]|, false);
      } else if g in names {
        assert g in names[1..] by {
          var x :| 0 <= x < |names| && names[x] == g;
          assert names[1..][x - 1] == g;
        }
      }
    }
  }

  // ---------------------------------------------------------------------------
  // Drag and drop.

  /** saveApiCall: stored under the call's own name (a call without one is not representable as a key). */
  function Save(store: Store, call: Model.ApiCall): (r: Store)
    ensures call.name.Some? ==> r == store[call.name.value := call]
    ensures call.name.None? ==> r == store
  {
    if call.name.Some? then store[call.name.value := call] else store
  }

  /** Every call is stored under its own name, as saveApiCall leaves the file. */
  predicate Keyed(store: Store) {
    forall k :: k in store ==> store[k].name == Some(k)
  }

  /** addApiCallToGroup: a listed call gets the group and is saved again; an unknown name does nothing. */
  function AddToGroup(store: Store, n: string, g: string): (r: Store)
    ensures n !in store ==> r == store
    ensures Keyed(store) && n in store ==>
      Keyed(r) && r == store[n := store[n].(group := Some(g))]
  {
    if n in store then Save(store, store[n].(group := Some(g))) else store
  }

  datatype Drop = Ignored | NestingRefused | Declined | Regrouped(store: Store)

  /** The drop listener plus handleDrop; `answer` is what the new-group dialog returns. */
  function HandleDrop(store: Store, dragged: string, target: string, answer: Option<string>): (r: Drop)
    ensures r == Ignored <==> dragged == target || dragged !in store || target !in store
    ensures r == NestingRefused <==>
      (dragged != target && dragged in store && target in store
       && store[dragged].group.Some? && store[target].group.Some?
       && store[dragged].group != store[target].group)
    ensures r == Declined <==>
      (dragged != target && dragged in store && target in store
       && !(store[dragged].group.Some? && store[target].group.Some? && store[dragged].group != store[target].group)
       && GroupKey(store[target]).None? && GroupKey(store[dragged]).None?
       && (answer.None? || Text.IsBlank(answer.value)))
  {
    if dragged == target || dragged !in store || target !in store then Ignored
    else
      var dg := store[dragged].group;
      var tg := store[target].group;
      if dg.Some? && tg.Some? && dg != tg then NestingRefused
      else if tg.Some? && !Text.IsBlank(tg.value) then Regrouped(AddToGroup(store, dragged, tg.value))
      else if dg.Some? && !Text.IsBlank(dg.value) then Regrouped(AddToGroup(store, target, dg.value))
      else if answer.Some? && !Text.IsBlank(answer.value) then
        Regrouped(AddToGroup(AddToGroup(store, dragged, answer.value), target, answer.value))
      else Declined
  }

  /**
   * A regrouping leaves both calls in one non-blank group and touches nothing
   * else. The group is the target's when it has a usable one, else the dragged
   * call's, else the name typed into the dialog.
   */
  lemma DropJoinsGroups(store: Store, dragged: string, target: string, answer: Option<string>)
    requires Keyed(store)
    requires HandleDrop(store, dragged, target, answer).Regrouped?
    ensures var s := HandleDrop(store, dragged, target, answer).store;
      && Keyed(s) && s.Keys == store.Keys
      && s[dragged].group == s[target].group
      && s[dragged].group.Some? && !Text.IsBlank(s[dragged].group.value)
      && (forall k :: k in s && k != dragged && k != target ==> s[k] == store[k])
      && s[dragged] == store[dragged].(group := s[dragged].group)
      && s[target] == store[target].(group := s[target].group)
    ensures var s := HandleDrop(store, dragged, target, answer).store;
      && (GroupKey(store[target]).Some? ==> s[dragged].group == store[target].group && s[target] == store[target])
      && (GroupKey(store[target]).None? && GroupKey(store[dragged]).Some? ==>
            s[target].group == store[dragged].group && s[dragged] == store[dragged])
      && (GroupKey(store[target]).None? && GroupKey(store[dragged]).None? ==>
            answer.Some? && !Text.IsBlank(answer.value) && s[dragged].group == answer)
  {
  }

  /** The dialog is only consulted when neither call has a usable group. */
  lemma AnswerOnlyForUngrouped(store: Store, dragged: string, target: string, a1: Option<string>, a2: Option<string>)
    requires dragged in store && target in store
    requires GroupKey(store[dragged]).Some? || GroupKey(store[target]).Some?
    ensures HandleDrop(store, dragged, target, a1) == HandleDrop(store, dragged, target, a2)
  {
  }
}

/** ApiCallGroup: a named, collapsible list of call names without repeats. */
module ApiCallGroup {
  import opened Wrappers

  datatype ApiCallGroup = ApiCallGroup(name: Option<string>, names: seq<string>, expanded: bool)

  /** No name occurs twice. */
  predicate NoDuplicates(names: seq<string>) {
    forall i, j :: 0 <= i < j < |names| ==> names[i] != names[j]
  }

  predicate Valid(g: ApiCallGroup) { NoDuplicates(g.names) }

  /** The no-argument constructor. */
  function Unnamed(): (g: ApiCallGroup)
    ensures Valid(g) && g.names == [] && g.expanded && g.name.None?
  {
    ApiCallGroup(None, [], true)
  }

  /** The constructor taking a name. */
  function Named(name: string): (g: ApiCallGroup)
    ensures Valid(g) && g.names == [] && g.expanded && g.name == Some(name)
  {
    ApiCallGroup(Some(name), [], true)
  }

  /** isEmpty. */
  predicate IsEmpty(g: ApiCallGroup) { |g.names| == 0 }

  /** addApiCall: appended only when not already listed. */
  function Add(g: ApiCallGroup, n: string): (r: ApiCallGroup)
    ensures n in r.names && !IsEmpty(r)
    ensures n in g.names ==> r == g
    ensures n !in g.names ==> r.names == g.names + [n]
    ensures r.name == g.name && r.expanded == g.expanded
    ensures Valid(g) ==> Valid(r)
  {
    if n in g.names then g else g.(names := g.names + [n])
  }

  /** The index of the first `n`, or |names|. */
  function FirstIndex(names: seq<string>, n: string): (i: nat)
    ensures i <= |names|
    ensures i < |names| ==> names[i] == n
    ensures forall j :: 0 <= j < i ==> names[j] != n
    decreases |names|
  {
    if |names| == 0 || names[0] == n then 0 else 1 + FirstIndex(names[1..], n)
  }

  /** removeApiCall (`List.remove(Object)`): the first occurrence deleted, the others kept in order. */
  function Remove(g: ApiCallGroup, n: string): (r: ApiCallGroup)
    ensures n !in g.names ==> r == g
    ensures n in g.names ==>
      var i := FirstIndex(g.names, n);
      i < |g.names| && r.names == g.names[..i] + g.names[i + 1..]
    ensures r.name == g.name && r.expanded == g.expanded
    ensures Valid(g) ==> Valid(r) && n !in r.names
  {
    var i := FirstIndex(g.names, n);
    if i == |g.names| then g
    else
      var names := g.names[..i] + g.names[i + 1..];
      assert forall x :: 0 <= x < |names| ==> names[x] == g.names[if x < i then x else x + 1];
      g.(names := names)
  }

  /**
   * isEmpty after removeApiCall: a group without repeats becomes empty exactly
   * when the removed name was its only one, or it was empty already.
   */
  lemma EmptyAfterRemove(g: ApiCallGroup, n: string)
    requires Valid(g)
    ensures IsEmpty(Remove(g, n)) <==> g.names == [] || g.names == [n]
  {
  }

  /** setApiCallNames: null gives an empty list; any other list is copied as it is. */
  function SetNames(g: ApiCallGroup, names: Option<seq<string>>): (r: ApiCallGroup)
    ensures names.None? ==> r.names == [] && Valid(r)
    ensures names.Some? ==> r.names == names.value
    ensures r.name == g.name && r.expanded == g.expanded
  {
    g.(names := names.GetOr([]))
  }

  /** Adding a new name and removing it again restores the group. */
  lemma AddRemoveInverse(g: ApiCallGroup, n: string)
    requires n !in g.names
    ensures Remove(Add(g, n), n) == g
  {
    var r := Add(g, n);
    assert FirstIndex(r.names, n) == |g.names|;
    assert r.names[..|g.names|] == g.names;
  }

  /** Removing a listed name and adding it back keeps the same names, the name moving to the end. */
  lemma RemoveAddMovesLast(g: ApiCallGroup, n: string)
    requires Valid(g) && n in g.names
    ensures multiset(Add(Remove(g, n), n).names) == multiset(g.names)
    ensures Add(Remove(g, n), n).names[|g.names| - 1] == n
  {
    var i := FirstIndex(g.names, n);
    assert g.names == g.names[..i] + [n] + g.names[i + 1..];
  }

  /** setApiCallNames can break the invariant: a list with a repeat is taken as it is. */
  lemma SetNamesKeepsRepeats(g: ApiCallGroup, n: string)
    ensures !Valid(SetNames(g, Some([n, n])))
  {
    assert SetNames(g, Some([n, n])).names[0] == SetNames(g, Some([n, n])).names[1];
  }
}

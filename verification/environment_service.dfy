/** EnvironmentService: where environments are kept and the name-keyed operations on them. */
module EnvironmentService {
  import opened Wrappers
  import Text
  import Model

  const AppDirName := ".yapmc"
  const EnvironmentsFile := "environments.json"

  /** `System.getProperty("os.name").toLowerCase().contains(t)`. */
  predicate OsMentions(osName: string, t: string) {
    Text.Contains(Text.Lower(osName), t)
  }

  /**
   * getDataDirectory as path segments. `custom` is the configured storage
   * location, `home` the user.home property, `appData` the APPDATA variable.
   */
  function DataDirectory(custom: Option<string>, osName: string, home: string, appData: Option<string>): (r: seq<string>)
    ensures custom.Some? && custom.value != "" ==> r == [custom.value]
    ensures (custom.None? || custom.value == "") ==>
      if OsMentions(osName, "win") then
        r == (if appData.Some? then [appData.value, "YAPMC"] else [home, "AppData", "Roaming", "YAPMC"])
      else if OsMentions(osName, "mac") then r == [home, "Library", "Application Support", "YAPMC"]
      else r == [home, AppDirName]
  {
    if custom.Some? && custom.value != "" then [custom.value]
    else if OsMentions(osName, "win") then
      if appData.Some? then [appData.value, "YAPMC"] else [home, "AppData", "Roaming", "YAPMC"]
    else if OsMentions(osName, "mac") then [home, "Library", "Application Support", "YAPMC"]
    else [home, AppDirName]
  }

  /** The environments file sits directly in the data directory. */
  function EnvironmentsPath(custom: Option<string>, osName: string, home: string, appData: Option<string>): (r: seq<string>)
    ensures |r| >= 2 && r[|r| - 1] == EnvironmentsFile
    ensures r[..|r| - 1] == DataDirectory(custom, osName, home, appData)
  {
    DataDirectory(custom, osName, home, appData) + [EnvironmentsFile]
  }

  lemma OsMentionsIgnoresCase(a: string, b: string, t: string)
    requires Text.Lower(a) == Text.Lower(b)
    ensures OsMentions(a, t) == OsMentions(b, t)
  {
  }

  /** The macOS name of the JVM selects the Library folder. */
  lemma MacOsX(home: string, appData: Option<string>)
    ensures DataDirectory(None, "Mac OS X", home, appData) == [home, "Library", "Application Support", "YAPMC"]
  {
    var lower := Text.Lower("Mac OS X");
    assert lower == "mac os x";
    assert forall i :: 0 <= i < |lower| ==> lower[i] != 'w';
    forall k | 0 <= k
      ensures !Text.OccursAt(lower, "win", k)
    {
      if k + 3 <= |lower| {
        assert lower[k..k + 3][0] == lower[k];
      }
    }
    Text.ContainsIff(lower, "win");
    assert Text.OccursAt(lower, "mac", 0);
    Text.ContainsIff(lower, "mac");
  }

  /** A custom location, once non-empty, is used whatever the platform. */
  lemma CustomLocationWins(dir: string, os1: string, os2: string, h1: string, h2: string, a1: Option<string>, a2: Option<string>)
    requires dir != ""
    ensures DataDirectory(Some(dir), os1, h1, a1) == DataDirectory(Some(dir), os2, h2, a2) == [dir]
  {
  }

  // ---------------------------------------------------------------------------
  // The environments map, keyed by name.

  type Store = map<string, Model.Environment>

  /** saveEnvironment: insert or replace under the environment's own name. */
  function Save(store: Store, e: Model.Environment): (r: Store)
    ensures r.Keys == store.Keys + {e.name}
    ensures r[e.name] == e
    ensures forall n :: n in store && n != e.name ==> r[n] == store[n]
  {
    store[e.name := e]
  }

  /** loadEnvironment: null for an unknown name. */
  function Load(store: Store, name: string): (r: Option<Model.Environment>)
    ensures r.Some? <==> name in store
    ensures r.Some? ==> r.value == store[name]
  {
    if name in store then Some(store[name]) else None
  }

  /** deleteEnvironment: an unknown name leaves the map as it is. */
  function Delete(store: Store, name: string): (r: Store)
    ensures r.Keys == store.Keys - {name}
    ensures forall n :: n in r ==> r[n] == store[n]
  {
    store - {name}
  }

  /** environmentExists. */
  predicate Exists(store: Store, name: string) {
    name in store
  }

  /** A name exists exactly when it loads. */
  lemma ExistsIffLoads(store: Store, name: string)
    ensures Exists(store, name) <==> Load(store, name).Some?
  {
  }

  /** A saved environment loads back as saved. */
  lemma LoadAfterSave(store: Store, e: Model.Environment)
    ensures Load(Save(store, e), e.name) == Some(e)
    ensures Exists(Save(store, e), e.name)
  {
  }

  /** Saving and then deleting a name is the same as deleting it. */
  lemma DeleteUndoesSave(store: Store, e: Model.Environment)
    ensures Delete(Save(store, e), e.name) == Delete(store, e.name)
    ensures e.name !in store ==> Delete(Save(store, e), e.name) == store
  {
  }

  /** After a delete the name is gone and nothing else moved. */
  lemma LoadAfterDelete(store: Store, name: string, other: string)
    requires other != name
    ensures Load(Delete(store, name), name).None? && !Exists(Delete(store, name), name)
    ensures Load(Delete(store, name), other) == Load(store, other)
  {
  }

  /** Saving twice under one name keeps only the second. */
  lemma SaveOverwrites(store: Store, e1: Model.Environment, e2: Model.Environment)
    requires e1.name == e2.name
    ensures Save(Save(store, e1), e2) == Save(store, e2)
  {
  }
}

/**
 * The plugin loader (`plugin_loader.py`): at start-up it walks the plugins directory in
 * sorted order, skips what is not a loadable plugin, and registers each plugin whose
 * `initialize`, router mounting and task registration succeed, under its instance name, in
 * the module-level `_registry` (manifests) and `_instances` dicts; at shutdown it calls
 * every instance's `on_shutdown` and empties both.
 *
 * The filesystem, the JSON reader, the importer and the plugins' own hooks are inputs: each
 * directory entry carries what probing, reading and importing it would give.
 */
module PluginLoader {
  import opened Wrappers
  import opened Strings
  import opened JsonData
  import opened StableSort

  /** A plugin instance (`PluginBase`), with whether each of its hooks raises. */
  datatype Instance = Instance(
    name: string,
    initRaises: bool,
    routerRaises: bool,
    tasksRaises: bool,
    shutdownRaises: bool)

  /**
   * One entry of the plugins directory: its name, whether it is a directory, whether
   * `manifest.json` and `__init__.py` exist in it, what `json.load` of the manifest gave
   * (`None` when reading or parsing raised), and what importing `plugins.<name>` and
   * reading its `plugin_instance` gave (`None` when either raised).
   */
  datatype Entry = Entry(
    name: string,
    isDir: bool,
    hasManifest: bool,
    hasInit: bool,
    manifest: Option<Json>,
    instance: Option<Instance>)

  /** A router mounted on the application: its prefix and its tag. */
  datatype Mount = Mount(prefix: Json, tag: Json)

  /**
   * The loader's state: the registry's keys in insertion order (a Python dict keeps the
   * position of a key that is assigned again), the two dicts, and the routers mounted so far.
   */
  datatype LoaderState = LoaderState(
    order: seq<string>,
    registry: map<string, Json>,
    instances: map<string, Instance>,
    mounts: seq<Mount>)

  /** A state after some entries were visited; `aborted` once an exception escaped the walk. */
  datatype Progress = Progress(state: LoaderState, aborted: bool)

  const Empty: LoaderState := LoaderState([], map[], map[], [])

  /** The two dicts have the same keys, listed once each in `order`. */
  ghost predicate ValidState(st: LoaderState) {
    && (forall i, j :: 0 <= i < j < |st.order| ==> st.order[i] != st.order[j])
    && (forall n :: n in st.order <==> n in st.registry)
    && st.registry.Keys == st.instances.Keys
  }

  // ---------------------------------------------------------------------------------
  // One directory entry

  /** `sorted(PLUGINS_DIR.iterdir())`: entries of one directory compare by name. */
  function ByName(): (Entry, Entry) -> bool {
    (a: Entry, b: Entry) => StrLe(a.name, b.name)
  }

  function SortByName(entries: seq<Entry>): seq<Entry> {
    Sort(entries, ByName())
  }

  /** `manifest.get("enabled", True)`. */
  function Enabled(fields: map<string, Json>): Json {
    if "enabled" in fields then fields["enabled"] else JBool(true)
  }

  /** `manifest.get("api_prefix", f"/api/plugins/{name}")`. */
  function ApiPrefix(fields: map<string, Json>, name: string): (r: Json)
    ensures "api_prefix" !in fields ==> r == JStr("/api/plugins/" + name)
    ensures "api_prefix" in fields ==> r == fields["api_prefix"]
  {
    if "api_prefix" in fields then fields["api_prefix"] else JStr("/api/plugins/" + name)
  }

  /** `manifest.get("display_name", name)`. */
  function Tag(fields: map<string, Json>, name: string): Json {
    if "display_name" in fields then fields["display_name"] else JStr(name)
  }

  /** The entry passes every check before the manifest is consulted. */
  predicate Candidate(e: Entry) {
    e.isDir && !StartsWith(e.name, "_") && e.hasManifest && e.hasInit && e.manifest.Some?
  }

  /** The manifest is valid JSON but not an object: `manifest.get` raises outside any `try`. */
  predicate Aborts(e: Entry) {
    Candidate(e) && !e.manifest.value.JObj?
  }

  /** The entry's router gets mounted: enabled, imported, initialised, and the router mounts. */
  predicate Mounts(e: Entry) {
    && Candidate(e) && e.manifest.value.JObj? && PyTruthy(Enabled(e.manifest.value.fields))
    && e.instance.Some? && !e.instance.value.initRaises && !e.instance.value.routerRaises
  }

  /** The entry is registered: mounted, and its tasks register too. */
  predicate Accepted(e: Entry) {
    Mounts(e) && !e.instance.value.tasksRaises
  }

  /** The name an accepted entry is registered under. */
  function NameOf(e: Entry): string
    requires Accepted(e)
  {
    e.instance.value.name
  }

  /** `_registry[name] = manifest; _instances[name] = instance`. */
  function Register(st: LoaderState, inst: Instance, manifest: Json): LoaderState {
    LoaderState(if inst.name in st.registry then st.order else st.order + [inst.name],
                st.registry[inst.name := manifest],
                st.instances[inst.name := inst],
                st.mounts)
  }

  /** The loop body of `discover_and_register` for one entry. */
  function Visit(st: LoaderState, e: Entry): (r: Progress)
    ensures r.aborted <==> Aborts(e)
    ensures !Accepted(e) ==>
      r.state.order == st.order && r.state.registry == st.registry && r.state.instances == st.instances
    ensures Accepted(e) ==> r.state == Register(st, e.instance.value, e.manifest.value).(mounts := r.state.mounts)
    ensures r.state.mounts == st.mounts + if Mounts(e) then
      [Mount(ApiPrefix(e.manifest.value.fields, e.instance.value.name), Tag(e.manifest.value.fields, e.instance.value.name))]
      else []
  {
    if !Candidate(e) then Progress(st, false)
    else if !e.manifest.value.JObj? then Progress(st, true)
    else
      var fields := e.manifest.value.fields;
      if !PyTruthy(Enabled(fields)) || e.instance.None? then Progress(st, false)
      else
        var inst := e.instance.value;
        if inst.initRaises || inst.routerRaises then Progress(st, false)
        else
          var mounted := st.(mounts := st.mounts + [Mount(ApiPrefix(fields, inst.name), Tag(fields, inst.name))]);
          if inst.tasksRaises then Progress(mounted, false)
          else Progress(Register(mounted, inst, e.manifest.value), false)
  }

  /** The walk over `entries` in the given order, stopping at the first escaping exception. */
  function RunAll(st: LoaderState, entries: seq<Entry>): Progress {
    if entries == [] then Progress(st, false)
    else
      var p := RunAll(st, entries[..|entries| - 1]);
      if p.aborted then p else Visit(p.state, entries[|entries| - 1])
  }

  // ---------------------------------------------------------------------------------
  // Properties of the walk

  /** Registering keeps the dicts in step and each key listed once. */
  lemma RegisterValid(st: LoaderState, inst: Instance, manifest: Json)
    requires ValidState(st)
    ensures ValidState(Register(st, inst, manifest))
  {
  }

  lemma {:induction false} RunAllValid(st: LoaderState, entries: seq<Entry>)
    requires ValidState(st)
    ensures ValidState(RunAll(st, entries).state)
  {
    if entries != [] {
      var prefix := entries[..|entries| - 1];
      var e := entries[|entries| - 1];
      RunAllValid(st, prefix);
      var p := RunAll(st, prefix);
      if !p.aborted && Accepted(e) {
        RegisterValid(p.state, e.instance.value, e.manifest.value);
      }
    }
  }

  /** The walk over one more entry, while no exception has escaped. */
  lemma RunAllSnoc(st: LoaderState, entries: seq<Entry>, i: nat)
    requires i < |entries| && !RunAll(st, entries[..i]).aborted
    ensures RunAll(st, entries[..i + 1]) == Visit(RunAll(st, entries[..i]).state, entries[i])
  {
    assert entries[..i + 1][..i] == entries[..i];
  }

  /** Once an exception has escaped, the remaining entries are not visited. */
  lemma {:induction false} AbortSticks(st: LoaderState, entries: seq<Entry>, i: nat)
    requires i <= |entries|
    requires RunAll(st, entries[..i]).aborted
    ensures RunAll(st, entries) == RunAll(st, entries[..i])
    decreases |entries| - i
  {
    if i < |entries| {
      assert entries[..i + 1][..i] == entries[..i];
      AbortSticks(st, entries, i + 1);
    }
    else {
      assert entries[..i] == entries;
    }
  }

  /** Some entry among `entries` is accepted under `name`. */
  predicate AcceptedAs(entries: seq<Entry>, name: string) {
    exists i :: 0 <= i < |entries| && Accepted(entries[i]) && NameOf(entries[i]) == name
  }

  /**
   * When the walk completes, a name is registered exactly when it was before or some
   * entry was accepted under it: skipped, disabled and failing plugins never enter the
   * registry.
   */
  lemma {:induction false} RegisteredIff(st: LoaderState, entries: seq<Entry>, name: string)
    requires !RunAll(st, entries).aborted
    ensures name in RunAll(st, entries).state.registry <==> name in st.registry || AcceptedAs(entries, name)
  {
    if entries != [] {
      var prefix := entries[..|entries| - 1];
      var e := entries[|entries| - 1];
      RegisteredIff(st, prefix, name);
      if AcceptedAs(prefix, name) {
        var i :| 0 <= i < |prefix| && Accepted(prefix[i]) && NameOf(prefix[i]) == name;
        assert entries[i] == prefix[i];
      }
      if AcceptedAs(entries, name) {
        var i :| 0 <= i < |entries| && Accepted(entries[i]) && NameOf(entries[i]) == name;
        if i < |prefix| {
          assert prefix[i] == entries[i];
        }
      }
    }
  }

  /**
   * When the walk completes, the manifest registered under a name is that of the last
   * entry accepted under it: a later plugin with the same name overwrites an earlier one.
   */
  lemma {:induction false} LaterOverwrites(st: LoaderState, entries: seq<Entry>, i: nat)
    requires i < |entries| && Accepted(entries[i])
    requires forall j :: i < j < |entries| && Accepted(entries[j]) ==> NameOf(entries[j]) != NameOf(entries[i])
    requires !RunAll(st, entries).aborted
    ensures NameOf(entries[i]) in RunAll(st, entries).state.registry
    ensures NameOf(entries[i]) in RunAll(st, entries).state.instances
    ensures RunAll(st, entries).state.registry[NameOf(entries[i])] == entries[i].manifest.value
    ensures RunAll(st, entries).state.instances[NameOf(entries[i])] == entries[i].instance.value
  {
    var prefix := entries[..|entries| - 1];
    var e := entries[|entries| - 1];
    if i < |prefix| {
      assert prefix[i] == entries[i];
      forall j | i < j < |prefix| && Accepted(prefix[j])
        ensures NameOf(prefix[j]) != NameOf(prefix[i])
      {
        assert prefix[j] == entries[j];
      }
      LaterOverwrites(st, prefix, i);
    }
  }

  /** The accepted entries, in walk order. */
  function AcceptedOf(entries: seq<Entry>): (r: seq<Entry>)
    ensures forall e :: e in r ==> Accepted(e)
  {
    if entries == [] then []
    else
      var e := entries[|entries| - 1];
      AcceptedOf(entries[..|entries| - 1]) + (if Accepted(e) then [e] else [])
  }

  /** No two accepted entries share an instance name. */
  predicate DistinctNames(entries: seq<Entry>) {
    var a := AcceptedOf(entries);
    forall i, j :: 0 <= i < j < |a| ==> NameOf(a[i]) != NameOf(a[j])
  }

  /** `st` lists exactly the entries `a`, in order, each under its own manifest. */
  predicate Lists(st: LoaderState, a: seq<Entry>)
    requires forall e :: e in a ==> Accepted(e)
  {
    && |st.order| == |a|
    && forall i :: 0 <= i < |a| ==>
         st.order[i] == NameOf(a[i]) && st.order[i] in st.registry && st.registry[st.order[i]] == a[i].manifest.value
  }

  lemma ListsRegister(st: LoaderState, a: seq<Entry>, e: Entry)
    requires forall x :: x in a ==> Accepted(x)
    requires ValidState(st) && Lists(st, a) && Accepted(e)
    requires forall k :: 0 <= k < |a| ==> NameOf(a[k]) != NameOf(e)
    ensures Lists(Register(st, e.instance.value, e.manifest.value), a + [e])
  {
    assert NameOf(e) !in st.order;
  }

  lemma DistinctNamesPrefix(entries: seq<Entry>)
    requires entries != [] && DistinctNames(entries)
    ensures DistinctNames(entries[..|entries| - 1])
  {
    var a := AcceptedOf(entries[..|entries| - 1]);
    var all := AcceptedOf(entries);
    assert forall k :: 0 <= k < |a| ==> all[k] == a[k];
  }

  lemma FreshName(entries: seq<Entry>, a: seq<Entry>, e: Entry)
    requires entries != [] && DistinctNames(entries)
    requires a == AcceptedOf(entries[..|entries| - 1]) && e == entries[|entries| - 1] && Accepted(e)
    ensures forall k :: 0 <= k < |a| ==> NameOf(a[k]) != NameOf(e)
  {
    var all := AcceptedOf(entries);
    assert all == a + [e];
    assert forall k :: 0 <= k < |a| ==> all[k] == a[k];
    assert all[|a|] == e;
  }

  /**
   * From an empty registry, when the walk completes and the accepted plugins have distinct
   * names, the registry lists exactly the accepted entries' manifests, in walk order; the
   * walk visits the directory in sorted order, so `/api/plugins` lists them in sorted
   * directory order.
   */
  lemma {:induction false} ListingOrder(entries: seq<Entry>)
    requires !RunAll(Empty, entries).aborted
    requires DistinctNames(entries)
    ensures ValidState(RunAll(Empty, entries).state)
    ensures Lists(RunAll(Empty, entries).state, AcceptedOf(entries))
  {
    RunAllValid(Empty, entries);
    if entries != [] {
      var prefix := entries[..|entries| - 1];
      var e := entries[|entries| - 1];
      DistinctNamesPrefix(entries);
      ListingOrder(prefix);
      if Accepted(e) {
        var p := RunAll(Empty, prefix).state;
        FreshName(entries, AcceptedOf(prefix), e);
        ListsRegister(p, AcceptedOf(prefix), e);
      }
    }
  }

  /** The walk's order: sorted by name and a permutation of the directory listing. */
  lemma SortByNameSpec(entries: seq<Entry>)
    ensures multiset(SortByName(entries)) == multiset(entries)
    ensures var s := SortByName(entries);
      forall i, j :: 0 <= i < j < |s| ==> StrLe(s[i].name, s[j].name)
  {
    forall a: Entry, b: Entry
      ensures StrLe(a.name, b.name) || StrLe(b.name, a.name)
    {
      StrLeTotal(a.name, b.name);
    }
    forall a: Entry, b: Entry, c: Entry | StrLe(a.name, b.name) && StrLe(b.name, c.name)
      ensures StrLe(a.name, c.name)
    {
      StrLeTransitive(a.name, b.name, c.name);
    }
    assert TotalPreorder(ByName());
    SortPermutes(entries, ByName());
    SortSorted(entries, ByName());
  }

  /** The values of a dict in its keys' insertion order. */
  function ValuesInOrder(order: seq<string>, registry: map<string, Json>): (r: seq<Json>)
    requires forall n :: n in order ==> n in registry
    ensures |r| == |order|
    ensures forall i :: 0 <= i < |order| ==> r[i] == registry[order[i]]
  {
    if order == [] then []
    else ValuesInOrder(order[..|order| - 1], registry) + [registry[order[|order| - 1]]]
  }

  // ---------------------------------------------------------------------------------
  // Shutdown

  /** The names whose `on_shutdown` raises, in registry order. */
  function FailingShutdowns(order: seq<string>, instances: map<string, Instance>): seq<string>
    requires forall n :: n in order ==> n in instances
  {
    if order == [] then []
    else
      var n := order[|order| - 1];
      FailingShutdowns(order[..|order| - 1], instances) + (if instances[n].shutdownRaises then [n] else [])
  }

  // ---------------------------------------------------------------------------------
  // The loader

  class Loader {
    /** The keys of `_registry`/`_instances` in insertion order. */
    var order: seq<string>
    /** `_registry`: manifests by instance name. */
    var registry: map<string, Json>
    /** `_instances`. */
    var instances: map<string, Instance>
    /** The routers mounted on the application so far. */
    var mounts: seq<Mount>

    function State(): LoaderState
      reads this
    {
      LoaderState(order, registry, instances, mounts)
    }

    ghost predicate Valid()
      reads this
    {
      ValidState(State())
    }

    constructor ()
      ensures State() == Empty && Valid()
    {
      order := [];
      registry := map[];
      instances := map[];
      mounts := [];
    }

    /** `get_registry().values()`, as `/api/plugins` lists them. */
    function Listing(): (r: seq<Json>)
      reads this
      requires forall n :: n in order ==> n in registry
      ensures |r| == |order|
      ensures forall i :: 0 <= i < |order| ==> r[i] == registry[order[i]]
    {
      ValuesInOrder(order, registry)
    }

    /**
     * `get_plugin(name)`: the instance registered under `name`, present exactly when the
     * registry lists a manifest under that name.
     */
    function GetPlugin(name: string): (r: Option<Instance>)
      reads this
      requires Valid()
      ensures r.Some? <==> name in registry
      ensures r.Some? ==> r == Some(instances[name])
    {
      if name in instances then Some(instances[name]) else None
    }

    /**
     * `discover_and_register`, given whether the plugins directory exists and its entries;
     * it reports whether an exception escaped. A missing directory changes nothing;
     * otherwise the state is the walk's over the entries in sorted order.
     */
    method DiscoverAndRegister(dirExists: bool, entries: seq<Entry>) returns (aborted: bool)
      requires Valid()
      modifies this
      ensures Valid()
      ensures !dirExists ==> State() == old(State()) && !aborted
      ensures dirExists ==> Progress(State(), aborted) == RunAll(old(State()), SortByName(entries))
    {
      aborted := false;
      if !dirExists {
        return;
      }
      ghost var st0 := State();
      var dirs := SortByName(entries);
      var i := 0;
      while i < |dirs|
        invariant 0 <= i <= |dirs|
        invariant Progress(State(), false) == RunAll(st0, dirs[..i])
      {
        var e := dirs[i];
        RunAllSnoc(st0, dirs, i);
        i := i + 1;
        if !e.isDir || StartsWith(e.name, "_") {
          continue;
        }
        if !e.hasManifest || !e.hasInit {
          continue;
        }
        if e.manifest.None? {
          continue;
        }
        var manifest := e.manifest.value;
        if !manifest.JObj? {
          aborted := true;
          AbortSticks(st0, dirs, i);
          RunAllValid(st0, dirs);
          return;
        }
        if !PyTruthy(Enabled(manifest.fields)) {
          continue;
        }
        if e.instance.None? {
          continue;
        }
        var inst := e.instance.value;
        if inst.initRaises || inst.routerRaises {
          continue;
        }
        mounts := mounts + [Mount(ApiPrefix(manifest.fields, inst.name), Tag(manifest.fields, inst.name))];
        if inst.tasksRaises {
          continue;
        }
        if inst.name !in registry {
          order := order + [inst.name];
        }
        registry := registry[inst.name := manifest];
        instances := instances[inst.name := inst];
      }
      assert dirs[..i] == dirs;
      RunAllValid(st0, dirs);
    }

    /**
     * `shutdown_all`: `on_shutdown` is called on every instance in registry order, a
     * failure does not stop the others, and both dicts end empty. It returns the names
     * called and the names whose call raised.
     */
    method ShutdownAll() returns (called: seq<string>, failed: seq<string>)
      requires Valid()
      modifies this
      ensures called == old(order)
      ensures failed == FailingShutdowns(old(order), old(instances))
      ensures order == [] && registry == map[] && instances == map[] && mounts == old(mounts)
      ensures Valid()
    {
      called := [];
      failed := [];
      for i := 0 to |order|
        invariant called == order[..i]
        invariant failed == FailingShutdowns(order[..i], instances)
      {
        var name := order[i];
        assert order[..i + 1][..i] == order[..i];
        called := called + [name];
        if instances[name].shutdownRaises {
          failed := failed + [name];
        }
      }
      assert order[..|order|] == order;
      order := [];
      registry := map[];
      instances := map[];
    }
  }
}

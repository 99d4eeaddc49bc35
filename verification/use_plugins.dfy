/**
 * `usePlugins`: the browser's list of plugin manifests, ordered for the sidebar by
 * `frontend.sidebar_order`, with the loading flag and the last error message.
 */
module UsePlugins {
  import opened Wrappers
  import opened Types
  import opened ApiClient
  import opened StableSort

  /** The comparator `(a, b) => a.frontend.sidebar_order - b.frontend.sidebar_order` as "not after". */
  function BySidebarOrder(): (PluginManifest, PluginManifest) -> bool {
    (a: PluginManifest, b: PluginManifest) => a.frontend.sidebarOrder <= b.frontend.sidebarOrder
  }

  /** `data.sort(...)` with that comparator. */
  function SidebarSort(data: seq<PluginManifest>): seq<PluginManifest> {
    Sort(data, BySidebarOrder())
  }

  /** The manifests of `s` whose `sidebar_order` is `n`, in their order in `s`. */
  function WithOrder(s: seq<PluginManifest>, n: int): (r: seq<PluginManifest>)
    ensures forall p :: p in r <==> p in s && p.frontend.sidebarOrder == n
  {
    if s == [] then []
    else (if s[0].frontend.sidebarOrder == n then [s[0]] else []) + WithOrder(s[1..], n)
  }

  /** The message `fetchPlugins` stores for what its `catch` received. */
  function ErrorMessage(e: Thrown): (r: string)
    ensures e.ErrorValue? ==> r == e.message
    ensures e.OtherValue? ==> r == "Failed to load plugins"
  {
    match e
    case ErrorValue(m) => m
    case OtherValue => "Failed to load plugins"
  }

  lemma BySidebarOrderIsPreorder()
    ensures TotalPreorder(BySidebarOrder())
  {
  }

  /** The manifests tied with `z` under the comparator are those with the same `sidebar_order`. */
  lemma {:induction false} TiedIsWithOrder(s: seq<PluginManifest>, z: PluginManifest)
    ensures Tied(s, z, BySidebarOrder()) == WithOrder(s, z.frontend.sidebarOrder)
  {
    if s != [] {
      TiedIsWithOrder(s[1..], z);
    }
  }

  /**
   * The sidebar order: ascending `sidebar_order`, a permutation of what was fetched, and
   * manifests with equal `sidebar_order` in fetch order.
   */
  lemma SidebarSortSpec(data: seq<PluginManifest>)
    ensures var r := SidebarSort(data);
      && (forall i, j :: 0 <= i < j < |r| ==> r[i].frontend.sidebarOrder <= r[j].frontend.sidebarOrder)
      && multiset(r) == multiset(data)
      && (forall n :: WithOrder(r, n) == WithOrder(data, n))
  {
    var r := SidebarSort(data);
    BySidebarOrderIsPreorder();
    SortSorted(data, BySidebarOrder());
    SortPermutes(data, BySidebarOrder());
    forall n
      ensures WithOrder(r, n) == WithOrder(data, n)
    {
      var z := PluginManifest("", "", "", "", false, "", PluginFrontend("", "", n, "", []));
      SortStable(data, z, BySidebarOrder());
      TiedIsWithOrder(r, z);
      TiedIsWithOrder(data, z);
    }
  }

  /** Any ascending list with the same manifests per `sidebar_order`, in the same order, is the sort's result. */
  lemma SidebarSortUnique(r: seq<PluginManifest>, data: seq<PluginManifest>)
    requires forall i, j :: 0 <= i < j < |r| ==> r[i].frontend.sidebarOrder <= r[j].frontend.sidebarOrder
    requires forall n :: WithOrder(r, n) == WithOrder(data, n)
    ensures r == SidebarSort(data)
  {
    BySidebarOrderIsPreorder();
    forall z
      ensures Tied(r, z, BySidebarOrder()) == Tied(data, z, BySidebarOrder())
    {
      TiedIsWithOrder(r, z);
      TiedIsWithOrder(data, z);
    }
    SortUnique(r, data, BySidebarOrder());
  }

  /** Sorting the sorted list again changes nothing. */
  lemma SidebarSortIdempotent(data: seq<PluginManifest>)
    ensures SidebarSort(SidebarSort(data)) == SidebarSort(data)
  {
    BySidebarOrderIsPreorder();
    SortSorted(data, BySidebarOrder());
    SortIdempotent(SidebarSort(data), BySidebarOrder());
  }

  class PluginsHook {
    var plugins: seq<PluginManifest>
    var loading: bool
    var error: Option<string>

    /** The hook's initial state. */
    constructor ()
      ensures plugins == [] && loading && error == None
    {
      plugins := [];
      loading := true;
      error := None;
    }

    /**
     * `fetchPlugins` (also `refresh`), once the request for `/plugins` settles with
     * `transport`: on success the sorted manifests replace the list and the error is
     * cleared; on failure the list is kept and the error message recorded. Either way the
     * hook is no longer loading.
     */
    method FetchPlugins(transport: Result<Response<seq<PluginManifest>>, Thrown>) returns (url: string)
      modifies this
      ensures url == "/api/plugins"
      ensures !loading
      ensures ApiFetch(transport).Ok? ==> plugins == SidebarSort(ApiFetch(transport).value) && error == None
      ensures ApiFetch(transport).Err? ==>
        plugins == old(plugins) && error == Some(ErrorMessage(ApiFetch(transport).error))
    {
      url := RequestUrl("/plugins");
      var outcome := ApiFetch(transport);
      match outcome {
        case Ok(data) =>
          plugins := SidebarSort(data);
          error := None;
        case Err(e) =>
          error := Some(ErrorMessage(e));
      }
      loading := false;
    }
  }
}

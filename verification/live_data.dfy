/**
 * The fetch state machine the three live widgets share: `data` and `loading`, a
 * `fetchData` that rewrites the configured endpoint for `apiFetch`, replaces `data` on
 * success, keeps it on failure and clears `loading` either way, and that runs once on
 * mount and once per message on the widget's refresh topic.
 */
module LiveData {
  import opened Wrappers
  import opened Strings
  import opened ApiClient

  /** `config.data_endpoint.replace('/api', '')`: the path handed to `apiFetch`. */
  function RequestPath(endpoint: string): string {
    ReplaceFirst(endpoint, BaseUrl, "")
  }

  /**
   * Removing the first `/api` and letting `apiFetch` prefix `/api` again requests exactly
   * the configured endpoint if and only if it starts with `/api`.
   */
  lemma RequestUrlRoundTrip(endpoint: string)
    ensures RequestUrl(RequestPath(endpoint)) == endpoint <==> StartsWith(endpoint, BaseUrl)
  {
    var url := RequestUrl(RequestPath(endpoint));
    if StartsWith(endpoint, BaseUrl) {
      assert OccursAt(endpoint, BaseUrl, 0);
      assert IndexOf(endpoint, BaseUrl) == Some(0);
      assert RequestPath(endpoint) == endpoint[|BaseUrl|..];
      assert endpoint == endpoint[..|BaseUrl|] + endpoint[|BaseUrl|..];
    }
    if url == endpoint {
      assert StartsWith(url, BaseUrl);
    }
  }

  /** The data after a fetch settles with `outcome`. */
  function Settled<T>(data: T, outcome: Result<T, Thrown>): T {
    match outcome
    case Ok(v) => v
    case Err(_) => data
  }

  /** Whether some fetch in `outcomes` succeeded. */
  predicate AnySuccess<T>(outcomes: seq<Result<T, Thrown>>) {
    exists i :: 0 <= i < |outcomes| && outcomes[i].Ok?
  }

  /** The data after the fetches in `outcomes` settle in order. */
  function SettleAll<T>(data: T, outcomes: seq<Result<T, Thrown>>): T
    decreases |outcomes|
  {
    if outcomes == [] then data
    else SettleAll(Settled(data, outcomes[0]), outcomes[1..])
  }

  /** The fetch at index `k` succeeded and every later one failed. */
  predicate LastSuccessAt<T>(outcomes: seq<Result<T, Thrown>>, k: nat) {
    k < |outcomes| && outcomes[k].Ok? && forall j :: k < j < |outcomes| ==> outcomes[j].Err?
  }

  /**
   * After any sequence of fetches the widget shows what the last successful fetch
   * returned; with no success at all it still shows its initial data.
   */
  lemma {:induction false} SettleAllLastSuccess<T>(data: T, outcomes: seq<Result<T, Thrown>>)
    ensures !AnySuccess(outcomes) ==> SettleAll(data, outcomes) == data
    ensures forall k: nat :: LastSuccessAt(outcomes, k) ==> SettleAll(data, outcomes) == outcomes[k].value
    decreases |outcomes|
  {
    if outcomes != [] {
      var rest := outcomes[1..];
      SettleAllLastSuccess(Settled(data, outcomes[0]), rest);
      forall k: nat | LastSuccessAt(outcomes, k)
        ensures SettleAll(data, outcomes) == outcomes[k].value
      {
        if k > 0 {
          assert LastSuccessAt(rest, k - 1);
        }
      }
    }
  }

  /** One mounted live widget's `data`/`loading` state. */
  class LiveState<T> {
    var data: T
    var loading: bool

    constructor (initial: T)
      ensures data == initial && loading && ShowsSpinner()
    {
      data := initial;
      loading := true;
    }

    /**
     * `fetchData` for the widget's `data_endpoint`, once the request settles with
     * `transport`; it returns the URL it requested.
     */
    method FetchData(endpoint: string, transport: Result<Response<T>, Thrown>) returns (url: string)
      modifies this
      ensures url == RequestUrl(RequestPath(endpoint))
      ensures !loading && !ShowsSpinner()
      ensures data == Settled(old(data), ApiFetch(transport))
      ensures ApiFetch(transport).Ok? ==> data == transport.value.body
      ensures ApiFetch(transport).Err? ==> data == old(data)
    {
      url := RequestUrl(RequestPath(endpoint));
      var outcome := ApiFetch(transport);
      if outcome.Ok? {
        data := outcome.value;
      }
      loading := false;
    }

    /** The render's first choice: the spinner exactly while loading. */
    function ShowsSpinner(): (r: bool)
      reads this
      ensures r <==> loading
    {
      loading
    }
  }
}

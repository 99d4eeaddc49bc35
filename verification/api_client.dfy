/**
 * `apiFetch(path)`: every REST call of the browser goes to `/api` + `path` and turns a
 * non-2xx response into a thrown `Error`. The network, the HTTP exchange and JSON decoding
 * are inputs: the caller passes what the transport produced.
 */
module ApiClient {
  import opened Wrappers
  import opened Strings

  const BaseUrl: string := "/api"

  /** What a JavaScript `catch` receives: an `Error` with its message, or any other value. */
  datatype Thrown = ErrorValue(message: string) | OtherValue

  /** A response as `fetch` resolves it: its status line and its decoded body. */
  datatype Response<T> = Response(status: nat, statusText: string, body: T)

  /** The URL actually requested for `path`. */
  function RequestUrl(path: string): (r: string)
    ensures StartsWith(r, BaseUrl) && r[|BaseUrl|..] == path
  {
    BaseUrl + path
  }

  /** `res.ok`: a status in the range 200-299. */
  predicate Success(status: nat) {
    200 <= status <= 299
  }

  /**
   * The promise `apiFetch` returns: a transport failure (network error, undecodable body)
   * rejects with what was thrown; a non-2xx status rejects with
   * `Error("API error <status>: <statusText>")`; otherwise it resolves to the body.
   */
  function ApiFetch<T>(transport: Result<Response<T>, Thrown>): (r: Result<T, Thrown>)
    ensures r.Ok? <==> transport.Ok? && Success(transport.value.status)
    ensures r.Ok? ==> r.value == transport.value.body
    ensures transport.Err? ==> r == Err(transport.error)
    ensures transport.Ok? && !Success(transport.value.status) ==>
      r.Err? && r.error.ErrorValue? && StartsWith(r.error.message, "API error ")
  {
    match transport
    case Err(e) => Err(e)
    case Ok(res) =>
      if Success(res.status) then Ok(res.body)
      else Err(ErrorValue("API error " + NatToDecimal(res.status) + ": " + res.statusText))
  }
}

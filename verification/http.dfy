/** The remote patch server, seen only through the status and body of each URL.
    Connections, headers and streaming are not part of the model. */
module Http {
  import opened Bytes

  /** What `HttpURLConnection` yields for a URL: a status code with the body, or a
      connection that could not be made (`getResponseCode()` throws `IOException`). */
  datatype Response = Response(status: int, body: seq<Octet>) | Unreachable

  /** The finitely many URLs the server publishes. Any other URL answers 404. */
  type Remote = map<string, Response>

  function Fetch(remote: Remote, url: string): (resp: Response)
    ensures url !in remote ==> resp == Response(404, [])
    ensures url in remote ==> resp == remote[url]
  {
    if url in remote then remote[url] else Response(404, [])
  }

  /** Status 200: the only answer the client treats as success. */
  predicate IsOk(resp: Response) {
    resp.Response? && resp.status == 200
  }

  /** The `IOException` a failed request surfaces as. */
  datatype IOError = ServerError(status: int) | ConnectionFailed

  /** The exception for a response that is not a success. */
  function ErrorOf(resp: Response): (e: IOError)
    requires !IsOk(resp)
    ensures resp.Unreachable? <==> e == ConnectionFailed
    ensures resp.Response? ==> e.ServerError? && e.status == resp.status && e.status != 200
  {
    match resp
    case Unreachable => ConnectionFailed
    case Response(status, _) => ServerError(status)
  }
}

/** Shared shapes of request handling: optional values, HTTP error replies,
    results, and a result paired with the store state after the request. */
module Results {

  datatype Option<+T> = None | Some(value: T)

  /** Status codes an endpoint raises with `HTTPException`: always a 4xx or 5xx,
      so a status of 200 is never an error. */
  type ErrorStatus = c: int | 400 <= c <= 599 witness 400

  const BadRequest: ErrorStatus := 400
  const Unauthorized: ErrorStatus := 401
  const Forbidden: ErrorStatus := 403
  const NotFound: ErrorStatus := 404

  /** An error response: the status code and the `detail` message. */
  datatype HttpError = HttpError(code: ErrorStatus, detail: string)

  /** What an endpoint answers: the response body on 200, or an error. */
  datatype Result<+T> = Ok(value: T) | Err(error: HttpError)
  {
    /** The status code a client of the endpoint observes. */
    function Status(): (s: int)
      ensures s == 200 <==> Ok?
    {
      if Ok? then 200 else error.code
    }
  }

  /** A request's answer together with the state of the store after it. */
  datatype Reply<+T, +S> = Reply(result: Result<T>, state: S)

  function Min(a: int, b: int): int
  {
    if a <= b then a else b
  }
}

/** Optional values and request results shared by the back end and the front end. */
module Outcomes {

  /** A value that may be absent: a SQL `NULL`, a JavaScript `null`/`undefined`,
      or a query that found no row. */
  datatype Option<+T> = None | Some(value: T)

  /** An HTTP error as the back end raises it: a status code and a detail text. */
  datatype HttpError = HttpError(status: int, detail: string)

  /** The outcome of one request: the response body, or the error it raised. */
  datatype Result<+T> = Ok(value: T) | Err(error: HttpError) {
    /** The body of a successful response; `None` when the request failed. */
    function ToOption(): Option<T> {
      if Ok? then Some(value) else None
    }
  }

  /** Status the web framework answers with when the database rejects a statement. */
  const InternalServerError := HttpError(500, "Internal Server Error")

  /** Status a lookup by primary key answers with when no row has the key. */
  function NotFound(detail: string): HttpError
  {
    HttpError(404, detail)
  }
}

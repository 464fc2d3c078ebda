/**
 * What the spreadsheet client can raise, and the wall clock that the
 * throttling and retry code reads and sleeps on.
 */
module Remote {
  import opened Wrappers

  /** The HTTP response carried by a gspread `APIError`. */
  datatype Response = Response(status: int, retryAfter: Option<string>)

  /** An exception: a gspread `APIError` (with `str(e)` as `message`) or any other exception. */
  datatype Exc =
    | ApiError(response: Option<Response>, message: string)
    | OtherError(message: string)

  /** The result of one call of a remote operation. */
  datatype Outcome<+T> = Returned(value: T) | Raised(exc: Exc)

  /** `getattr(getattr(e, "response", None), "status_code", None)` */
  function StatusCode(e: Exc): Option<int> {
    if e.ApiError? && e.response.Some? then Some(e.response.value.status) else None
  }

  /** `time.time()` and `time.sleep`, in seconds. */
  class Clock {
    var now: real

    constructor (start: real)
      ensures now == start
    {
      now := start;
    }

    /** `time.sleep(d)`; the callers only sleep for non-negative durations. */
    method Sleep(d: real)
      requires d >= 0.0
      modifies this
      ensures now == old(now) + d
    {
      now := now + d;
    }
  }
}

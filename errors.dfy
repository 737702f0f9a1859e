/** The backend's error kinds and the mapping of an error to the HTTP error the
    API answers with (backend/utils/error_handlers.py). */
module Errors {
  import opened PyText

  /** FastAPI's HTTPException: a status code and a detail text. */
  datatype HttpException = HttpException(statusCode: int, detail: string)

  /** The exceptions that reach the handlers. */
  datatype Error =
    | AppError(message: string, statusCode: int)  // the application's own error
    | ValueError(message: string)                 // Python's ValueError
    | Http(exception: HttpException)              // an HTTPException raised inside a handler
    | Other(message: string)                      // any other Exception, by its str()

  /** `AppError(message, status_code=500)`. */
  function MakeAppError(message: string, statusCode: int := 500): (e: Error)
    ensures e.AppError? && e.message == message && e.statusCode == statusCode
  {
    AppError(message, statusCode)
  }

  /** `str(error)`: an AppError passes its message to Exception.__init__, and
      Starlette renders an HTTPException as "<status>: <detail>". */
  function Str(e: Error): (r: string)
    ensures !e.Http? ==> r == e.message
    ensures e.Http? ==>
      |r| > |e.exception.detail| + 2 && r[|r| - |e.exception.detail| - 2..] == ": " + e.exception.detail
  {
    match e
    case AppError(message, _) => message
    case ValueError(message) => message
    case Http(h) => IntToString(h.statusCode) + ": " + h.detail
    case Other(message) => message
  }

  /** `handle_error(error)`: it never returns normally; the result is the
      HTTPException it raises. */
  function HandleError(e: Error): (h: HttpException)
    ensures e.AppError? ==> h.statusCode == e.statusCode && h.detail == e.message
    ensures e.ValueError? ==> h.statusCode == 400 && h.detail == Str(e)
    ensures !e.AppError? && !e.ValueError? ==> h == HttpException(500, "Internal server error")
  {
    if e.AppError? then HttpException(e.statusCode, e.message)
    else if e.ValueError? then HttpException(400, Str(e))
    else HttpException(500, "Internal server error")
  }

  /** An AppError built with the default status reaches the client as a 500
      carrying its own message, whereas any error outside the two known kinds
      reaches it as a 500 whose detail hides the message. */
  lemma DefaultAppErrorIsServerError(message: string)
    ensures HandleError(MakeAppError(message)) == HttpException(500, message)
    ensures HandleError(Other(message)) == HttpException(500, "Internal server error")
  {
  }

  /** Only AppError can produce a status other than 400 and 500, and the detail
      is the error's own text exactly for the two known kinds. */
  lemma HandleErrorStatuses(e: Error)
    ensures HandleError(e).statusCode in {400, 500} || e.AppError?
    ensures (e.AppError? || e.ValueError?) ==> HandleError(e).detail == Str(e)
  {
  }
}

/** Failure-carrying wrappers and the values that the document hooks of both
    record types hand to their `next` callback. */
module Wrappers {

  datatype Option<+T> = None | Some(value: T)

  datatype Result<+R, +E> = Success(value: R) | Failure(error: E)
}

module Middleware {

  /** A JavaScript `Error` object: its `name` and its `message`. */
  datatype JsError = JsError(name: string, message: string)

  /** One failed schema validator: the document path and the validator's
      message. Each record type names its paths with its own type `P`. */
  datatype FieldError<P> = FieldError(path: P, message: string)

  /** What a pre-save hook passes on: `next()` or `next(error)`. */
  datatype Signal = Proceed | Fail(error: JsError)

  /** Why a save did not reach the collection. */
  datatype SaveError<P> =
    | Invalid(errors: seq<FieldError<P>>)  // schema validation, before any hook
    | HookFailed(error: JsError)           // a pre-save hook reported an error
    | DuplicateKey(path: P, key: string)   // a unique index rejected the write

  /** The outcome of a save: the collection afterwards and the error, if any. */
  datatype SaveOutcome<T, P> = Saved(stored: seq<T>) | Rejected(kept: seq<T>, reason: SaveError<P>)
  {
    function Collection(): seq<T> {
      match this
      case Saved(s) => s
      case Rejected(s, _) => s
    }
  }
}

/** Option, Result and Outcome: the model's stand-ins for Python's `None`,
    for a value-or-exception, and for a call that only succeeds or raises. */
module Wrappers {

  datatype Option<+T> = None | Some(value: T) {
    /** The value, or `default` when absent (Python's `dict.get(key, default)`). */
    function GetOr(default: T): T {
      match this
      case Some(v) => v
      case None => default
    }
  }

  datatype Result<+T, +E> = Ok(value: T) | Err(error: E)

  /** The outcome of a call that returns nothing but may raise. */
  datatype Outcome<+E> = Pass | Fail(error: E)
}

/** The exceptions that end a run of the injector. */
module Errors {

  datatype Error =
    | MissingKey(key: string)    // a `KeyError` on a configured service hook
    | RequestFailed              // `raise_for_status` on a non-success HTTP status
    | LayoutMismatch             // the hooks table or a row's span is not on the page
}

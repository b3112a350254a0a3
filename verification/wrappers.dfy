/** Optional values and fallible results, the two shapes the handlers need
    in place of Python's `None` and of exceptions. */
module Wrappers {

  /** A value that may be absent, like a Python attribute that may be `None`. */
  datatype Option<T> = None | Some(value: T) {

    /** Python's `x or default` for a value whose only falsy forms are
        `None` and `default` itself. */
    function GetOr(default: T): T {
      if Some? then value else default
    }
  }

  /** The outcome of an operation that may raise instead of returning. */
  datatype Result<T, E> = Success(value: T) | Failure(error: E)
}

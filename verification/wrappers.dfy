/** Optional values and results, standing in for Python's `dict.get`
    defaults, `None` returns and raised exceptions. */
module Wrappers {

  /** A value that may be missing: a dictionary key that is absent, or a
      function that returns `None`. */
  datatype Option<T> = None | Some(value: T) {

    /** The value, or `default` when missing (Python's `d.get(k, default)`). */
    function GetOr(default: T): T
    {
      match this
      case Some(v) => v
      case None => default
    }
  }

  /** The outcome of a call that either returns a value or raises. */
  datatype Result<T> = Success(value: T) | Failure(error: string)
}

/** Optional values and outcomes that may fail, shared by the schema and route modules. */
module Wrappers {

  /** A value that may be missing: Python's `Optional[T]`, with `None` for null. */
  datatype Option<+T> = None | Some(value: T) {

    /** The carried value, or `default` when there is none. */
    function GetOr(default: T): T {
      match this
      case Some(v) => v
      case None => default
    }
  }

  /** The outcome of a request handler: its response, or the error it raises. */
  datatype Result<+T, +E> = Success(value: T) | Failure(error: E)
}

/** Optional values and results with an error, shared by the other modules. */
module Wrappers {

  /** Python's `None` or a value. */
  datatype Option<+T> = None | Some(value: T) {
    function GetOr(default: T): T {
      match this
      case Some(v) => v
      case None => default
    }
  }

  /** The value a Python call returns, or the exception it raises. */
  datatype Result<+T, +E> = Success(value: T) | Failure(error: E)
}

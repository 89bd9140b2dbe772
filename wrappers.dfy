/** Optional values (C# nullable references, Python `None`) and outcomes that
    may carry an error (exceptions the source raises or throws). */
module Wrappers {

  datatype Option<+T> = None | Some(value: T) {
    function GetOr(default: T): T {
      match this
      case Some(v) => v
      case None => default
    }
  }

  datatype Result<+T, +E> = Success(value: T) | Failure(error: E)
}

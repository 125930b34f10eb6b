/** Failure-carrying values used throughout the model: `Option` for the
    source's `null`/`undefined` results and `Result` for an operation that
    either returns a value or throws an `Error` with a message. */
module Wrappers {

  datatype Option<+T> = None | Some(value: T) {
    function GetOr(default: T): T {
      match this
      case Some(v) => v
      case None => default
    }
  }

  datatype Result<+T, +E> = Success(value: T) | Failure(error: E)
}

/** Failure-carrying value types shared by every module of the model. */
module Wrappers {

  datatype Option<+T> = None | Some(value: T) {
    function GetOr(default: T): T {
      match this
      case Some(v) => v
      case None => default
    }
  }

  datatype Result<+T, +E> = Success(value: T) | Failure(error: E)

  /** A check that either passes or reports an error (Rust's `Result<(), E>`). */
  datatype Outcome<+E> = Pass | Fail(error: E)

  /** What a call does at run time when the code as written may panic. */
  datatype Run<+T> = Returned(value: T) | Panicked
}

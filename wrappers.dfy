/** Failure-compatible wrappers: an optional value (a nullable reference or a
    `Nullable<T>` in the source), a result with an error, and a pass/fail outcome
    for operations that throw but return nothing. */
module Wrappers {

  datatype Option<+T> = None | Some(value: T) {
    function GetOr(default: T): T {
      match this
      case Some(v) => v
      case None => default
    }
  }

  datatype Result<+T, +E> = Success(value: T) | Failure(error: E)

  datatype Outcome<+E> = Pass | Fail(error: E)
}

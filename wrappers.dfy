/** Option, Outcome and Result: the model's stand-ins for `undefined`-able
    fields, for a check that may fail and for an operation that may throw. */
module Wrappers {

  datatype Option<+T> = None | Some(value: T) {
    /** The `??` operator: the value when present, the default otherwise. */
    function GetOr(default: T): T {
      match this
      case Some(v) => v
      case None => default
    }
  }

  /** A check that passes or fails with an error value. */
  datatype Outcome<+E> = Pass | Fail(error: E)

  /** A computation that returns a value or fails with an error value. */
  datatype Result<+R, +E> = Success(value: R) | Failure(error: E)
}

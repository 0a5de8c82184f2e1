/** Failure-compatible wrappers shared by every module of the model. */
module Wrappers {

  /** A value that may be absent (TypeScript's `undefined`, C++'s missing lookup). */
  datatype Option<+T> = None | Some(value: T) {
    /** The wrapped value, or `default` when absent (TypeScript's `??`). */
    function GetOr(default: T): T {
      match this
      case Some(v) => v
      case None => default
    }
  }

  /** A computation that either produced a value or failed with an error. */
  datatype Result<+R, +E> = Success(value: R) | Failure(error: E)

  /** A computation with no value that either completed or threw an error. */
  datatype Outcome<+E> = Pass | Fail(error: E)
}

/** Optional values and computations that may abort: Kotlin's nullable types
    become `Option`, a thrown exception becomes `Failure` or `Fail`. */
module Wrappers {

  /** A value that may be absent (Kotlin's `T?`). */
  datatype Option<+T> = None | Some(value: T) {

    /** The wrapped value, or `default` when absent. */
    function GetOr(default: T): T {
      match this
      case Some(v) => v
      case None => default
    }
  }

  /** A computation that either produces a value or aborts with an error. */
  datatype Result<+R, +E> = Success(value: R) | Failure(error: E)

  /** A computation run for its effect that either completes or aborts. */
  datatype Outcome<+E> = Pass | Fail(error: E)
}

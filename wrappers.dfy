/** Option, Result and Outcome: the model's stand-ins for Kotlin's nullable
    types, for a value-or-exception, and for a check that either passes or
    throws. */
module Wrappers {

  /** A nullable value (`T?` in Kotlin, `T | undefined` in TypeScript). */
  datatype Option<+T> = None | Some(value: T) {
    function GetOr(default: T): T {
      match this
      case Some(v) => v
      case None => default
    }
  }

  /** The value of a call that either returns or throws. */
  datatype Result<+T, +E> = Success(value: T) | Failure(error: E)

  /** A check that returns normally or throws (`require` chains). */
  datatype Outcome<+E> = Pass | Fail(error: E)
}

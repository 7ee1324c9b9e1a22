/** Failure-compatible wrappers shared by the store modules. */
module Wrappers {

  /** An optional value: `None` stands for JavaScript's `undefined`. */
  datatype Option<+T> = None | Some(value: T) {
    function GetOr(default: T): T {
      match this
      case Some(v) => v
      case None => default
    }
  }

  /** The outcome of an action that may throw: `Fail` carries the error it throws. */
  datatype Outcome<+E> = Pass | Fail(error: E)
}

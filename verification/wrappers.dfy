/** Failure-compatible wrappers: `Option` for the source's `null` returns and
    `Result` for the places where the source throws or answers with an error. */
module Wrappers {

  /** A value that may be absent (the source's `null` / `undefined`). */
  datatype Option<+T> = None | Some(value: T) {

    /** The value, or `default` when absent (the source's `x || default`). */
    function GetOr(default: T): (r: T)
      ensures Some? ==> r == value
      ensures None? ==> r == default
    {
      match this
      case Some(v) => v
      case None => default
    }
  }

  /** The outcome of an operation that may throw: `Ok` carries the value,
      `Err` the error message. */
  datatype Result<+T> = Ok(value: T) | Err(message: string)
}

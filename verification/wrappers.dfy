/** Small failure-compatible wrappers shared by the rest of the model:
    `Option` for "the row may be absent" and `Result` for operations the
    store can refuse. */
module Wrappers {

  /** A value that may be absent; `None` plays the role of `undefined`/`null`. */
  datatype Option<+T> = None | Some(value: T) {

    /** The carried value, or `default` when there is none. */
    function GetOr(default: T): T {
      match this
      case Some(v) => v
      case None => default
    }
  }

  /** Either the value an operation produced or the error that stopped it. */
  datatype Result<+R, +E> = Success(value: R) | Failure(error: E)
}

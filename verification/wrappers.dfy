/** Failure-compatible result types shared by the stores and the tab session. */
module Wrappers {

  /** A value that may be absent: a missing storage key, an undefined field. */
  datatype Option<+T> = None | Some(value: T)

  /** The outcome of a store operation that either writes `value` or throws `error`. */
  datatype Result<+T, +E> = Success(value: T) | Failure(error: E)
}

/** Option, Result and Outcome values, used where the source returns
    `undefined`, throws, or returns an `anyhow::Result`. */
module Wrappers {

  datatype Option<+T> = None | Some(value: T)

  /** A computation that either produced a value or raised an error. */
  datatype Result<+T, +E> = Success(value: T) | Failure(error: E)

  /** A computation that produces no value and either passed or failed. */
  datatype Outcome<+E> = Pass | Fail(error: E)
}

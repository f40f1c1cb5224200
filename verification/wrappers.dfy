/** Failure-carrying result types shared by the loader modules. */
module Wrappers {

  /** Go's nil-able pointer or "absent" answer. */
  datatype Option<+T> = None | Some(value: T)

  /** Go's `(value, error)` pair: exactly one of the two is meaningful. */
  datatype Result<+T, +E> = Ok(value: T) | Err(error: E)
}

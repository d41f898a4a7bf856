/** Failure-carrying datatypes shared by the whole model. */
module Wrappers {

  /** A value that may be missing: a NaN cell, an absent column, a failed lookup. */
  datatype Option<+T> = None | Some(value: T)

  /** The outcome of an operation that the program lets fail with an exception. */
  datatype Result<+R, +E> = Ok(value: R) | Err(error: E)
}

/** Failure-carrying values shared by the modules of the model. */
module Wrappers {

  /** A value that may be absent: Python's `None` against a present value. */
  datatype Option<+T> = None | Some(value: T)

  /** The outcome of an operation that the original program lets raise. */
  datatype Result<+R, +E> = Ok(value: R) | Err(error: E)
}

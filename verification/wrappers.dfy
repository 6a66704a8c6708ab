/** Failure-carrying results shared by both data structures. */
module Wrappers {

  /** An optional value: Python's `None` or a present value. */
  datatype Option<+T> = None | Some(value: T)

  /** Either a value or the exception the source raises instead. */
  datatype Result<+T, +E> = Ok(value: T) | Err(error: E)
}

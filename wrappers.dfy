/** The two failure-carrying datatypes the model uses. */
module Wrappers {

  /** A value that may be absent: Python's `None` or a present value. */
  datatype Option<+T> = None | Some(value: T)

  /** A computation that either returns a value or raises an exception with this text. */
  datatype Result<+T, +E> = Ok(value: T) | Err(error: E)
}

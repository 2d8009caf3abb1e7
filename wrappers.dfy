/** Option and Result, the failure-carrying datatypes the rest of the model returns. */
module Wrappers {

  /** A value that may be absent: Kotlin's nullable `T?`. */
  datatype Option<+T> = None | Some(value: T)

  /** A value or the exception that the source throws instead. */
  datatype Result<+T, +E> = Ok(value: T) | Err(error: E)
}

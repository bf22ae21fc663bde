/** Option and Result, the two failure-carrying shapes the services return. */
module Wrappers {

  datatype Option<+T> = None | Some(value: T)

  /** A service call either yields a value or throws one of its errors. */
  datatype Result<+T, +E> = Ok(value: T) | Err(error: E)
}

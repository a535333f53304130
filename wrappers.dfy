/** The result of an operation that can fail: a value, or the reason it failed. */
module Wrappers {

  datatype Result<+T, +E> = Ok(value: T) | Err(error: E)
}

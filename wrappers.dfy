/** The success-or-error value that the library's fallible operations return. */
module Wrappers {

  datatype Result<+T, +E> = Ok(value: T) | Err(error: E)
}

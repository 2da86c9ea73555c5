/** Option and Result, the two failure-carrying shapes the helper uses. */
module Wrappers {

  datatype Option<+T> = None | Some(value: T)

  /** A Rust `Result<T, String>`: a value or an error message. */
  datatype Result<+T> = Ok(value: T) | Err(error: string)
}

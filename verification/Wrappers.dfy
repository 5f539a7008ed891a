/** The two result shapes of the modelled Rust code. A panic is `None` where a function has no error type. */
module Wrappers {
  datatype Option<+T> = None | Some(value: T)

  datatype Result<+T, +E> = Ok(value: T) | Err(error: E)
}

/** Option and Result, used for the panics (`.unwrap()` on an error) of the monitor. */
module Wrappers {

  datatype Option<+T> = None | Some(value: T)

  datatype Result<+R, +E> = Ok(value: R) | Err(error: E)
}

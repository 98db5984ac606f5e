/** Option and Result, for the places where the scripts raise an exception or
    return nothing. */
module Wrappers {

  datatype Option<+T> = None | Some(value: T)

  datatype Result<+T, +E> = Ok(value: T) | Err(error: E)
}

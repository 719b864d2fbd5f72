/** Option and Result, used for nullable columns, `undefined` returns and rejected writes. */
module Wrappers {

  datatype Option<+T> = None | Some(value: T)

  datatype Result<+T, +E> = Ok(value: T) | Err(error: E)
}

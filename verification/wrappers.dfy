/** Option and Result: JavaScript's `undefined`/`null` and thrown TypeErrors, made explicit. */
module Wrappers {

  datatype Option<+T> = None | Some(value: T)

  datatype Result<+R, +E> = Ok(value: R) | Err(error: E)
}

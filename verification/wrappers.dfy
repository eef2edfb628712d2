/** Option and Result, the two shapes a JavaScript value takes in this model:
    a value that may be `undefined`, and a call that either returns or throws. */
module Wrappers {

  datatype Option<+T> = None | Some(value: T)

  datatype Result<+T, +E> = Ok(value: T) | Err(error: E)
}

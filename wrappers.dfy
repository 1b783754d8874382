/** Option and Result, the explicit stand-ins for JavaScript's `undefined`/`null`
    returns and for thrown exceptions. */
module Wrappers {

  datatype Option<+T> = None | Some(value: T)

  datatype Result<+T, +E> = Ok(value: T) | Err(error: E)
}

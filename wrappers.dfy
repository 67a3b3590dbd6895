/** Option and Result, the two wrappers the model uses for JavaScript's
    `undefined` and for an operation that throws. */
module Wrappers {

  datatype Option<+T> = None | Some(value: T)

  datatype Result<+T, +E> = Ok(value: T) | Err(error: E)
}

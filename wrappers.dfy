/** Option and Result: the success-or-failure values the model returns wherever
    the server raises a ValueError. */
module Wrappers {

  datatype Option<+T> = None | Some(value: T)

  datatype Result<+T, +E> = Ok(value: T) | Err(error: E)
}

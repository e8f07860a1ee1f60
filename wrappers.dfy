/** Option and Result: the model's stand-ins for Python's `None` and for
    the exceptions the service raises or catches. */
module Wrappers {

  datatype Option<+T> = None | Some(value: T)

  datatype Result<+R, +E> = Ok(value: R) | Err(error: E)
}

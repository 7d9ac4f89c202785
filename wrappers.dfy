/** Option and Result, the shapes in which the model returns JavaScript's `null`
    and the `{ success: false, error }` objects of the server actions. */
module Wrappers {

  datatype Option<+T> = None | Some(value: T)

  datatype Result<+T, +E> = Ok(value: T) | Err(error: E)
}

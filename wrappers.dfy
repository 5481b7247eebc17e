/** Optional values and results with an error value, used for Python's `None`
    and for the exceptions the scripts raise or catch. */
module Wrappers {

  datatype Option<+T> = None | Some(value: T)

  datatype Result<+T, +E> = Ok(value: T) | Err(error: E)
}

/** Optional values and error-carrying results, used where the Python code
    returns None or shows an error dialog instead of going on. */
module Wrappers {

  datatype Option<+T> = None | Some(value: T)

  datatype Result<+T, +E> = Ok(value: T) | Err(error: E)
}

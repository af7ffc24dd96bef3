/** Optional values and error-carrying results, standing for null pointers and
    thrown exceptions in the modelled code. */
module Wrappers {

  datatype Option<+T> = None | Some(value: T)

  datatype Result<+T, +E> = Ok(value: T) | Err(error: E)
}

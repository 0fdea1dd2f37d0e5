/** Optional values and success-or-error results, used for every operation
    of the model that can fail or find nothing. */
module Wrappers {

  datatype Option<+T> = None | Some(value: T)

  datatype Result<+T, +E> = Ok(value: T) | Err(error: E)
}

/** Optional values and results with an error, used where the transcript service
    returns `None` or takes an early error exit. */
module Wrappers {

  datatype Option<T> = None | Some(value: T)

  datatype Result<T, E> = Ok(value: T) | Err(error: E)
}

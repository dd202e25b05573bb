/** Optional values and results carrying an error, used for the source's
    exceptions (IndexError, KeyError, ValueError, RuntimeError). */
module Wrappers {

  datatype Option<+T> = None | Some(value: T)

  datatype Result<+T, +E> = Ok(value: T) | Err(error: E)
}

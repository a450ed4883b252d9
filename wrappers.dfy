/** Optional values and results, standing in for Python's `None` and for the
    error dictionaries `{'error': ...}` of the tracker. */
module Wrappers {

  datatype Option<+T> = None | Some(value: T)

  datatype Result<+T, +E> = Ok(value: T) | Err(error: E)
}

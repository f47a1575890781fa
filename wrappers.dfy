/** Optional values and results with an error payload, standing in for the
    exceptions that Python's int(), float() and indexing raise. */
module Wrappers {

  datatype Option<+T> = None | Some(value: T)

  datatype Result<+T, +E> = Ok(value: T) | Err(error: E)
}

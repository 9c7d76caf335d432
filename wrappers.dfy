/** Optional values and explicit error results, standing in for Python's `None` and the
    `{"error": ...}` dictionaries the registry returns. */
module Wrappers {

  datatype Option<+T> = None | Some(value: T)

  datatype Result<+T, +E> = Success(value: T) | Failure(error: E)
}

/** Optional values and results with an error, as returned by the model's
    filesystem and logger operations. */
module Wrappers {

  datatype Option<+T> = None | Some(value: T)

  datatype Result<+R, +E> = Success(value: R) | Failure(error: E)
}

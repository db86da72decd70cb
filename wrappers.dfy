/** Optional values and results with a typed error, used where the source
    uses `None` or returns a failure response. */
module Wrappers {

  datatype Option<+T> = None | Some(value: T)

  datatype Result<+R, +E> = Success(value: R) | Failure(error: E)
}

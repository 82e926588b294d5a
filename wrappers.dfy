/** Optional values and results with an error, used for the absent fields of a
    metadata document and for the errors raised while resolving one. */
module Wrappers {

  datatype Option<+T> = None | Some(value: T)

  datatype Result<+R, +E> = Success(value: R) | Failure(error: E)
}

/** Optional values and tagged results, used for the analyzers' absent fields and fatal errors. */
module Wrappers {

  datatype Option<+T> = None | Some(value: T)

  datatype Result<+R, +E> = Success(value: R) | Failure(error: E)
}

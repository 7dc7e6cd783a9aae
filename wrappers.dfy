/** Optional values and results with an error message, used for the
    exceptions and `undefined` results of the scanner. */
module Wrappers {

  datatype Option<+T> = None | Some(value: T)

  datatype Result<+T> = Success(value: T) | Failure(error: string)
}

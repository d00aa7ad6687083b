/** Optional values and results with an error message, used where the
    application has a missing value (`undefined`, `null`) or a rejected promise. */
module Wrappers {

  datatype Option<+T> = None | Some(value: T)

  datatype Result<+T> = Success(value: T) | Failure(error: string)
}

/** Optional values and results with an error message. */
module Wrappers {

  /** None stands for a value pandas reports as NaN. */
  datatype Option<T> = None | Some(value: T)

  datatype Result<T> = Success(value: T) | Failure(error: string)
}

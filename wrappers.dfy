/** Optional values and the outcome of a call that may raise an exception. */
module Wrappers {

  datatype Option<+T> = None | Some(value: T)

  /** `Failure(message)` stands for a Python exception whose `str(e)` is `message`. */
  datatype Result<+T> = Success(value: T) | Failure(error: string)
}

/** Optional values and success/failure results, used where the handlers
    see an absent value (an unset environment variable, a missing form part)
    or an exception in place of a value. */
module Wrappers {

  /** A value that may be absent, such as `os.getenv` of an unset variable. */
  datatype Option<+T> = None | Some(value: T)

  /** Either a value or the message of the error that replaced it. */
  datatype Result<+R, +E> = Success(value: R) | Failure(error: E)
}

/** Wrappers for values that may be absent (a JavaScript `null`) and for
    calls that may fail. */
module Wrappers {

  /** `None` stands for the `null` the calendar code returns for "no value". */
  datatype Option<+T> = None | Some(value: T)

  /** The outcome of a call into the conversion library that may throw. */
  datatype Result<+R, +E> = Success(value: R) | Failure(error: E)
}

/** Stand-ins for java.util.Optional and for a call that either returns a value or throws. */
module Wrappers {

  /** java.util.Optional: a present value or an empty result. Also used for a Java reference that may be null. */
  datatype Option<+T> = None | Some(value: T)

  /** The outcome of a Java call: its return value, or the exception it throws. */
  datatype Result<+T, +E> = Success(value: T) | Failure(error: E)
}

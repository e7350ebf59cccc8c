/** Small value wrappers shared by the model: a nullable value and the
    success/failure result returned by the provider and the handlers. */
module Wrappers {

  /** A value that may be absent (a C# `null`). */
  datatype Option<+T> = None | Some(value: T)

  /** A result that is either a success or a failure carrying the message of
      its first (in this model: only) error. */
  datatype Result = Ok | Fail(message: string)
}

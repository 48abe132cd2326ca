/** Absence and failure as values: the model's stand-ins for Java's `Optional`
    and for a `RuntimeException` carrying a message. */
module Wrappers {

  datatype Option<+T> = None | Some(value: T)

  datatype Result<+T, +E> = Success(value: T) | Failure(error: E)
}

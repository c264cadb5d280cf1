/** Nullable values and thrown exceptions, written as values. */
module Wrappers {

  /** A C# nullable reference or value: `null` is `None`. */
  datatype Option<+T> = None | Some(value: T)

  /** The outcome of a call that either returns normally or throws `error`. */
  datatype Result<+T, +E> = Success(value: T) | Failure(error: E)
}

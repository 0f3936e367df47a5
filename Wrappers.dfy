/** Nullable values and caught exceptions, as the C# code uses them. */
module Wrappers {

  /** A C# nullable reference or `Nullable<T>`: `None` stands for `null`. */
  datatype Option<+T> = None | Some(value: T)

  /** A value, or the exception that the code would have thrown instead. */
  datatype Result<+T, +E> = Success(value: T) | Failure(error: E)
}

/** Option and Result: the null references and thrown exceptions of the C# source, as values. */
module Wrappers {
  datatype Option<T> = None | Some(value: T)

  datatype Result<T, E> = Success(value: T) | Failure(error: E)
}

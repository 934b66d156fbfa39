/** Option for the nullable parent of an item, Result for the store's two failing operations. */
module Wrappers {
  datatype Option<T> = None | Some(value: T)

  datatype Result<T, E> = Success(value: T) | Failure(error: E)
}

/** Optional values and success-or-error results, used by the query shim and the stores. */
module Wrappers {

  /** An optional value, the model of a JavaScript value that may be absent. */
  datatype Option<+T> = None | Some(value: T)

  /** Either a result or an error message, the model of a promise that resolves or rejects. */
  datatype Result<+R, +E> = Success(value: R) | Failure(error: E)
}

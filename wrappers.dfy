/** Option and Result values shared by the detector modules. */
module Wrappers {

  /** A value that may be absent; `None` stands for Go's `(nil, false)` step result and for a nil function. */
  datatype Option<T> = None | Some(value: T)

  /** The outcome of an operation that rejects some of its arguments. */
  datatype Result<T, E> = Success(value: T) | Failure(error: E)
}

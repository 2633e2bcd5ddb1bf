/** Optional values, error-carrying results and bytes, shared by the modules of this model. */
module Results {

  /** A value that may be absent: JavaScript's `undefined`/`null` versus a present value. */
  datatype Option<T> = None | Some(value: T)

  /** The outcome of an operation that can throw: a value, or the error it raised. */
  datatype Result<T, E> = Success(value: T) | Failure(error: E)

  /** One octet of a buffer. */
  newtype Byte = b: int | 0 <= b < 256
}

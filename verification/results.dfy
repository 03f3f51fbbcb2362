/** Optional values and success-or-error results shared by every module of the model. */
module Results {

  /** A value that may be absent (a Java `null`, a JavaScript `undefined`, a missing map key). */
  datatype Option<+T> = None | Some(value: T)

  /** The outcome of an operation that either succeeds with a value or fails with an error. */
  datatype Result<+T, +E> = Ok(value: T) | Err(error: E)
}

/** Optional values and fallible results shared by every module of the model. */
module Wrappers {

  /** A value that may be absent (Rust's `Option`). */
  datatype Option<+T> = None | Some(value: T)

  /** The outcome of an operation that can fail (Rust's `Result`). The
      constructors are `Ok`/`Err` so that they do not clash with the
      environment's `ActionResult.Success`/`Failure`. */
  datatype Result<+T, +E> = Ok(value: T) | Err(error: E)
}

/** Failure-carrying wrappers used throughout the model. */
module Wrappers {

  /** A value that may be absent (a lookup that found nothing, a parse that failed). */
  datatype Option<+T> = None | Some(value: T)

  /** Either a computed value or the error the source raises instead of returning. */
  datatype Result<+T, +E> = Ok(value: T) | Err(error: E)
}

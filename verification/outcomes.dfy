/** Optional values and success-or-error results, used for the frame reader's
    `(ret, frame)` pairs and for the stream that cannot be opened. */
module Outcomes {

  /** A value that may be absent: a failed `read()` yields `None`. */
  datatype Option<+T> = None | Some(value: T)

  /** Either the value an operation produced or the error it raised. */
  datatype Result<+T, +E> = Success(value: T) | Failure(error: E)
}

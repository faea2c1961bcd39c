/** Option and Result: the shapes Go's `(value, ok)` and `(value, error)` pairs take here. */
module Wrappers {

  datatype Option<+T> = None | Some(value: T)

  /** A Go error is carried as its message text, the only part the handlers use. */
  datatype Result<+R> = Success(value: R) | Failure(error: string)
}

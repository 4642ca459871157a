/** The two shapes a Go call of the task backend reports failure with: a nil-or-error
    result, and the error value built by `errors.New(message)`. */
module Outcome {

  /** `None` stands for Go's `nil`, `Some(v)` for a non-nil value. */
  datatype Option<+T> = None | Some(value: T)

  /** An error created with `errors.New`; only its message is observable. */
  datatype Error = Error(message: string)
}

/** The optional value used wherever the Go code returns a value together with an error. */
module Wrappers {

  /** `None` stands for a non-nil Go error (or a panic), `Some(v)` for a nil error and value `v`. */
  datatype Option<+T> = None | Some(value: T)
}

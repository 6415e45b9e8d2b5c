/** The optional value used where the Go code returns an `error` that may be nil. */
module Wrappers {
  datatype Option<+T> = None | Some(value: T)
}

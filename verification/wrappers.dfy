/** The optional value used where the Go code returns a nil slice or a nil error. */
module Wrappers {
  datatype Option<+T> = None | Some(value: T)
}

/** The optional value used wherever a Go value may be nil. */
module Wrappers {
  datatype Option<+T> = None | Some(value: T)
}

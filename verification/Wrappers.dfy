/** The optional values that the Go code writes as nil or non-nil pointers. */
module Wrappers {
  datatype Option<+T> = None | Some(value: T)
}

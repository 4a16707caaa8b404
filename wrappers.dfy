/** The optional value used for Go's `(value, err)` and "not found" returns. */
module Wrappers {
  datatype Option<+T> = None | Some(value: T)
}

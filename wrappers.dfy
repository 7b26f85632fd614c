/** The optional value used for Go's nil-able results (a nil slice, a missing index). */
module Wrappers {

  datatype Option<+T> = None | Some(value: T)
}

/** A value that may be absent, in place of the source's nil pointers. */
module Wrappers {
  datatype Option<+T> = None | Some(value: T)
}

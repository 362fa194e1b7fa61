/** A value that may be absent, in place of the C code's null pointers. */
module Wrappers {
  datatype Option<+T> = None | Some(value: T)
}

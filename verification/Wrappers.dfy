/** A value that may be missing: a NULL pointer, a failed search, a call that gave nothing. */
module Wrappers {
  datatype Option<+T> = None | Some(value: T)
}

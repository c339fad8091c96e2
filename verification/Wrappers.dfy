/** A value that may be missing: a raised exception or a failed check in the source. */
module Wrappers {
  datatype Option<+T> = None | Some(value: T)
}

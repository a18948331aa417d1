/** A value that may be missing: None of the reference program. */
module Wrappers {
  datatype Option<T> = None | Some(value: T)
}

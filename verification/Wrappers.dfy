module Wrappers {
  // A value, or none: a failed search, or an exception in place of a result.
  datatype Option<+T> = None | Some(value: T)
}

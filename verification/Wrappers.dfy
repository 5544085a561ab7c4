module Wrappers {
  /** A value that may be missing: a NULL pointer, an absent argument, an exception. */
  datatype Option<+T> = None | Some(value: T)
}

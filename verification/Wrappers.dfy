module Wrappers {
  /** A value that may be missing: a pointer that may be null, a lock that may be free. */
  datatype Option<+T> = None | Some(value: T)
}

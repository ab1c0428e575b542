/** The nullable-column datatype used throughout the queue model. */
module Wrappers {

  /** A value that may be absent: an SQL NULL, or a Python `None`. */
  datatype Option<+T> = None | Some(value: T)
}

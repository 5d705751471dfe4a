/** The optional value used for the nullable parts of the client's state. */
module Wrappers {

  /** A value that may be absent, like JavaScript's `null`. */
  datatype Option<+T> = None | Some(value: T)
}

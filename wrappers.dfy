/** The optional value used for Python's "raises or returns" outcomes. */
module Wrappers {
  datatype Option<+T> = None | Some(value: T)
}

/** A value that may be absent (Python's None, a JavaScript null). */
module Wrappers {
  datatype Option<+T> = None | Some(value: T)
}

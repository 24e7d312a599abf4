/** The optional value used for a regex that may not match and for a file read that may fail. */
module Wrappers {
  datatype Option<+T> = None | Some(value: T)
}

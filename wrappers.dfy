/** The optional value used wherever the source reads a field that may be missing. */
module Wrappers {
  datatype Option<+T> = None | Some(value: T)
}

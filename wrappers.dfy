/** The optional value used wherever the library answers either NULL or a value. */
module Wrappers {
  datatype Option<+T> = None | Some(value: T)
}

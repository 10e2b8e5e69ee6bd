/** The optional value used wherever the Swift source uses `T?`. */
module Wrappers {
  datatype Option<+T> = None | Some(value: T)
}

/** The optional values the program returns where Swift returns `T?`. */
module Wrappers {
  datatype Option<+T> = None | Some(value: T)
}

/** The Some/None datatype used wherever the program has a value that may be missing. */
module Wrappers {
  datatype Option<+T> = None | Some(value: T)
}

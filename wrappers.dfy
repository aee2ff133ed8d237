/** The optional value used for Python calls that either produce a value or raise ValueError. */
module Wrappers {
  datatype Option<+T> = None | Some(value: T)
}

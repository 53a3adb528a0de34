/** Python's `None`-or-value, used for sizes that could not be read. */
module Wrappers {
  datatype Option<+T> = None | Some(value: T)
}

/** Python's `None`-or-value, as used for optional URL arguments and JSON fields. */
module Wrappers {
  datatype Option<+T> = None | Some(value: T)
}

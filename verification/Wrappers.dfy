/** Values that stand for C's null pointer and for a Python lookup that finds nothing. */
module Wrappers {
  datatype Option<+T> = None | Some(value: T)
}

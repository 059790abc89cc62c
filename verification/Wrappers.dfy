/** A value that may be missing; None also stands for a NULL pointer. */
module Wrappers {
  datatype Option<+T> = None | Some(value: T)
}

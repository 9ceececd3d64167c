/** An optional value; None also stands for a NULL pointer. */
module Wrappers {
  datatype Option<+T> = None | Some(value: T)
}

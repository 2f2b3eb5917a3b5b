/** Option: the result of a read that may never resolve. */
module Wrappers {
  datatype Option<+T> = None | Some(value: T)
}

/** Option, for the optional drop destination of a drag result. */
module Wrappers {
  datatype Option<+T> = None | Some(value: T)
}

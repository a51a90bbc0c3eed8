/** Option type for the source's `None` returns and nullable catalog columns. */
module Wrappers {
  datatype Option<+T> = None | Some(value: T)
}

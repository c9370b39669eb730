/** A value that may be absent: a nullable column, a missing argument, a failed lookup. */
module Wrappers {
  datatype Option<+T> = None | Some(value: T)
}

/** A value that may be absent: a nullable column, a missing key, a field left undefined. */
module Wrappers {
  datatype Option<+T> = None | Some(value: T)
}

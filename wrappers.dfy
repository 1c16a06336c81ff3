/** Option stands in for a nullable pointer or a "not found" result. */
module Wrappers {
  datatype Option<+T> = None | Some(value: T)
}

/** Results that may be missing: a null pointer, or a failure without further detail. */
module Wrappers {
  datatype Option<T> = None | Some(value: T)
}

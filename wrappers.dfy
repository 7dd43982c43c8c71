/** An optional value, for Go results that may be nil. */
module Wrappers {
  datatype Option<T> = None | Some(value: T)
}

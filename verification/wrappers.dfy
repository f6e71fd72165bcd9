/** Ruby's `nil` next to a value: `None` is nil, `Some(v)` is `v`. A hash
    read of a missing key and a nil value stored under a key both read as
    `None`. */
module Wrappers {
  datatype Option<T> = None | Some(value: T)
}

// Optional values: the Go code's nil pointers (*int, *User, *Exchange) and
// the "value, ok" results of parsing.
module Wrappers {
  datatype Option<T> = None | Some(value: T)
}

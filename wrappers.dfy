/** Go's "nil or present" values (nil slices, nil pointers) are modelled as Option. */
module Wrappers {
  datatype Option<+T> = None | Some(value: T)
}

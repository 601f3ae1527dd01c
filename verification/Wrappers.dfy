/**
 Results that may be missing: NULL pointers and failed searches.
 */
module Wrappers {
  datatype Option<+T> = None | Some(value: T)
}

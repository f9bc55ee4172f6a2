module Wrappers {

  // A pointer that may be null, with what it points to.
  datatype Option<+V> = None | Some(value: V)
}

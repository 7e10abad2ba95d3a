/** An optional value, shared by the other modules. */
module Wrappers {

  /** A value that may be absent: a regular-expression miss, a key not in a map. */
  datatype Option<+T> = None | Some(value: T)
}

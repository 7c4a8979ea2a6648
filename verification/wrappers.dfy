/** Small Option type for readings that may not name a state. */
module Wrappers {
  datatype Option<+T> = None | Some(value: T)
}

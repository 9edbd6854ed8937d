/** The optional value used for "not found" results and for absent host data. */
module Wrappers {
  datatype Option<+T> = None | Some(value: T)
}

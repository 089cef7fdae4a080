/** The optional value used where the source uses a null reference. */
module Wrappers {
  datatype Option<+T> = None | Some(value: T)
}

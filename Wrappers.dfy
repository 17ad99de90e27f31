/** The optional value used where the game returns Python's `None`. */
module Wrappers {
  datatype Option<+T> = None | Some(value: T)
}

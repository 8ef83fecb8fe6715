/** The optional value used for computations that may block forever on the board. */
module Wrappers {

  datatype Option<+T> = None | Some(value: T)
}

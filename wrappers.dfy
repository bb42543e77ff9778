/** The optional value a validator returns: Go's nil ErrorList is None. */
module Wrappers {

  datatype Option<+T> = None | Some(value: T)
}

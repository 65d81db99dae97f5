/** The optional value used wherever Go returns a nil pointer or a value plus an error. */
module Wrappers {

  datatype Option<+T> = None | Some(value: T)
}

/** The optional value used for operations whose input may be exhausted. */
module Wrappers {

  datatype Option<+T> = None | Some(value: T)
}

/** The optional value used for parses that can fail and for unbound variables. */
module Wrappers {

  datatype Option<+T> = None | Some(value: T)
}

/** The optional value returned by a regular-expression search or a path match. */
module Wrappers {

  datatype Option<+T> = None | Some(value: T)
}

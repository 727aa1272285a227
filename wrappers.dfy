/** The optional value used for results that JavaScript represents as an invalid or absent value. */
module Wrappers {
  datatype Option<+T> = None | Some(value: T)
}

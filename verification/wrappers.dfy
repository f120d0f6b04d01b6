/** The optional value used for results that may be missing (a failed regular-expression match). */
module Wrappers {
  datatype Option<+T> = None | Some(value: T)
}

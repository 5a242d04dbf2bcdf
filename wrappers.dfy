/** The optional value used for "no match" and for the token filter's "dropped". */
module Wrappers {

  datatype Option<+T> = None | Some(value: T)
}

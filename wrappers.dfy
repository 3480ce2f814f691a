/** The optional value used for "no match" and for absent result fields. */
module Wrappers {

  datatype Option<+T> = None | Some(value: T)

}

/** The optional value used for "not found" and "could not be decoded". */
module Wrappers {

  datatype Option<+T> = None | Some(value: T)
}

/** The nullable references of the original program: a string or object that may be null. */
module Wrappers {

  datatype Option<+T> = None | Some(value: T)
}

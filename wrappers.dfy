/** The optional value used wherever the analysed code works with a pointer that may be null. */
module Wrappers {

  datatype Option<+T> = None | Some(value: T)
}

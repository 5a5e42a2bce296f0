/** The optional value used wherever the C code returns a bool and writes a result through an out-pointer. */
module Wrappers {

  datatype Option<+T> = None | Some(value: T)
}

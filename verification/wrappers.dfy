/** The optional value used in place of the NULL pointers and non-zero status codes of the C readers. */
module Wrappers {

  datatype Option<+T> = None | Some(value: T)

}

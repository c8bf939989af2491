/** The optional value used where the C code returns NULL or skips a device call. */
module Wrappers {

  datatype Option<+T> = None | Some(value: T)
}

/** The optional value used where the C code returns a pointer that may be NULL
    or a size that may be missing. */
module Wrappers {

  datatype Option<+T> = None | Some(value: T)
}

/** The optional reference used wherever the C code passes or returns a
    pointer that may be NULL. */
module Wrappers {

  datatype Option<+T> = None | Some(value: T)

}

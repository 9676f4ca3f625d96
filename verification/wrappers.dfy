/** The optional value used for the C functions that signal failure with a
    NULL pointer. */
module Wrappers {

  datatype Option<+T> = None | Some(value: T)

}

/** The optional-value datatype used for possibly missing files and buffers. */
module Wrappers {
  datatype Option<+T> = None | Some(value: T)
}

/** The optional value used wherever the viewer keeps "nothing yet" (no file, no pending scroll). */
module Wrappers {
  datatype Option<+T> = None | Some(value: T)
}

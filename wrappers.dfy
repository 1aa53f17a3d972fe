/** The optional value used for settings that may be unset and for reads that may run out of input. */
module Wrappers {
  datatype Option<+T> = None | Some(value: T)
}

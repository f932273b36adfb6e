/** The optional value used wherever the source returns or reads `None`. */
module Wrappers {
  datatype Option<+T> = None | Some(value: T)
}

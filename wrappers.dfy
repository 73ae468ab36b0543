/** The optional value used for absent command-line arguments. */
module Wrappers {
  datatype Option<+T> = None | Some(value: T)
}

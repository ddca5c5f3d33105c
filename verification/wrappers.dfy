/** The optional value used for absent timestamps and failed parses. */
module Wrappers {
  datatype Option<+T> = None | Some(value: T)
}

/** The optional value used for absent keys, absent terminators and failed number parses. */
module Wrappers {
  datatype Option<+T> = None | Some(value: T)
}

/** The usual optional value, used by the scanner for "no match here". */
module Wrappers {
  datatype Option<+T> = None | Some(value: T)
}

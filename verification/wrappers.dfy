/** The optional value used for the JSON oracle, a failed parse and an unset stored theme. */
module Wrappers {
  datatype Option<+T> = None | Some(value: T)
}

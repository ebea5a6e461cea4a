/** The optional value used for "no date selected" and for handlers that may do nothing. */
module Wrappers {
  datatype Option<+T> = None | Some(value: T)
}

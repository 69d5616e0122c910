/** The optional value used for a lookup that may miss and for an absent field. */
module Wrappers {
  datatype Option<+T> = None | Some(value: T)
}

/** The optional value used for an absent dictionary key or a failed search. */
module Wrappers {
  datatype Option<+T> = None | Some(value: T)
}

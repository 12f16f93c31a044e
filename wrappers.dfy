/** The optional result used where the source throws on a missing entry. */
module Wrappers {

  datatype Option<+T> = None | Some(value: T)
}

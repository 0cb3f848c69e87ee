/** The optional value used for lookups that may miss and for a storage key that may be absent. */
module Wrappers {
  datatype Option<+T> = None | Some(value: T)
}

/** The optional value used for the storage slot, form inputs and lookups. */
module Wrappers {
  datatype Option<+T> = None | Some(value: T)
}

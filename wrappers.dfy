/** The optional value used for fields a request may omit and for lookups that may miss. */
module Wrappers {
  datatype Option<+T> = None | Some(value: T)
}

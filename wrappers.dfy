/** The conventional optional value, used for a DOM query that may find nothing
    and for an attribute that may be absent. */
module Wrappers {
  datatype Option<+T> = None | Some(value: T)
}

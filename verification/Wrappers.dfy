/** The failure-free half of the standard option type, used for absent members and missing results. */
module Wrappers {
  datatype Option<+T> = None | Some(value: T)
}

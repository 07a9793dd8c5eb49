/** The optional value used for a pointer that may be null and for a
    dialog or file load that may be cancelled or fail. */
module Wrappers {
  datatype Option<+T> = None | Some(value: T)
}

/** The optional value used for lookups and C-string reads. */
module Wrappers {
  datatype Option<+T> = None | Some(value: T)
}

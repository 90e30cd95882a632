/** The optional value used for a lookup that may find nothing (std::optional, a missing row). */
module Wrappers {
  datatype Option<+T> = None | Some(value: T)
}

/** The optional value used for results that may be absent (a ray that misses, a draw outside the range). */
module Wrappers {
  datatype Option<+T> = None | Some(value: T)
}

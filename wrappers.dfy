/** The optional value used for BFS distance slots and for results that the
    source obtains through an `unwrap` that can panic. */
module Wrappers {
  datatype Option<+T> = None | Some(value: T)
}

/** Optional values: `None` stands for a selection routine that returns false
    (or a case the C++ code treats as unreachable), `Some` for one that succeeds. */
module Wrappers {
  datatype Option<+T> = None | Some(value: T)
}

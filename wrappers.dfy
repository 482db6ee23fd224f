/** The optional result of a path query: `Some(path)` or `None` for "no path". */
module Wrappers {
  datatype Option<+T> = None | Some(value: T)
}

/** A small option type for values Python represents with `None`. */
module Wrappers {
  datatype Option<+T> = None | Some(value: T)
}

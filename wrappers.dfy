/** The nullable results of the view's private helpers (`Int?`, `Pair<...>?`). */
module Wrappers {
  datatype Option<+T> = None | Some(value: T)
}

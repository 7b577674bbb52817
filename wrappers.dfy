/** The optional-result datatype used for Go's nil results and `ok` flags. */
module Wrappers {
  datatype Option<+T> = None | Some(value: T)
}

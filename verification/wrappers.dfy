/** Option, for values Go marks absent with a sentinel, nil or an ok flag. */
module Wrappers {
  datatype Option<+T> = None | Some(value: T)
}

/** The optional-value type used for "the element a query selector found, or null". */
module Wrappers {

  datatype Option<+T> = None | Some(value: T)
}

/** The optional-value datatype used for failed breakdowns, parsers and absent responses. */
module Wrappers {

  datatype Option<+T> = None | Some(value: T)
}

/** The optional-value datatype used for parse results and for JavaScript's
    null/undefined arguments. */
module Wrappers {

  datatype Option<+T> = None | Some(value: T)

}

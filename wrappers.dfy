/** The optional-value datatype used by the model for "no such position" and
    "no valid layout" results. */
module Wrappers {

  datatype Option<+T> = None | Some(value: T)
}

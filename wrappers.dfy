/** The optional-value datatype used throughout the model: a JavaScript value
    that may be absent (null, undefined, or of the wrong type). */
module Wrappers {

  datatype Option<+T> = None | Some(value: T)
}

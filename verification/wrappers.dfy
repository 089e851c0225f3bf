/** The optional-value datatype used for the page's nullable references
    (a display surface that may be missing, a timer handle that may be null). */
module Wrappers {

  datatype Option<+T> = None | Some(value: T)
}

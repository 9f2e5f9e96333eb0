/** The optional-value datatype used throughout the model: a regex search
    that finds nothing, an extension with no highlighter, a file name that
    was never chosen. */
module Wrappers {

  datatype Option<+T> = None | Some(value: T)

}

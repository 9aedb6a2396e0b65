/** The optional-value datatype used throughout the model: `None` stands for
    Python's `None` (a draft's missing publication time, a missing file). */
module Wrappers {

  datatype Option<+T> = None | Some(value: T)
}

/** The optional-value datatype used for lookups that may find nothing
    (`undefined` from `find`, `-1` from `findIndex`). */
module Wrappers {

  datatype Option<+T> = None | Some(value: T)
}

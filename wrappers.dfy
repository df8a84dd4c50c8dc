/** The usual optional-value datatype, used for lookups that may find nothing
    and for values that JavaScript leaves `undefined`. */
module Wrappers {

  datatype Option<+T> = None | Some(value: T)

}

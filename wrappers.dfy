/** The optional value used for parsed operator input, version strings and
    link targets that may be absent. */
module Wrappers {

  datatype Option<+T> = None | Some(value: T)
}

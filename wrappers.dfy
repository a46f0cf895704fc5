/** The optional value used for request arguments that may be absent and for
    database columns that may be NULL. */
module Wrappers {

  datatype Option<+T> = None | Some(value: T)
}

/** The usual Some/None datatype, used where the source returns a value or
    Python's `None`, and for keys a record may lack. */
module Wrappers {

  datatype Option<+T> = None | Some(value: T)
}

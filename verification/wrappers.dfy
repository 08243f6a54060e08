/** The Some/None datatype used for the nullable columns of the calendar
    store and for the optional parts of a result. */
module Wrappers {

  datatype Option<+T> = None | Some(value: T)
}

/** The optional value used for empty slots, absent oracle answers and
    scan results that find nothing. */
module Wrappers {

  datatype Option<+T> = None | Some(value: T)
}

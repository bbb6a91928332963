/** The conventional optional value, standing for Django's nullable foreign
    keys and for lookups that may find nothing. */
module Wrappers {

  datatype Option<+T> = None | Some(value: T)
}

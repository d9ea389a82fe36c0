/** The optional value used for an absent selection and for lookups that find nothing. */
module Wrappers {

  datatype Option<+T> = None | Some(value: T)
}

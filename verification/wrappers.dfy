/** The optional value used for "no match", "no operator token" and "no previous statement". */
module Wrappers {

  datatype Option<+T> = None | Some(value: T)
}

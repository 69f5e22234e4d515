/** The optional value used for nullable columns and PHP's `null`. */
module Wrappers {

  datatype Option<+T> = None | Some(value: T)
}

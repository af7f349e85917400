/** Option, the stock Some/None datatype, used for absent pointers and unset variables. */
module Wrappers {

  datatype Option<+T> = None | Some(value: T)
}

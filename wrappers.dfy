/** The optional value used for nullable pointers and empty `std::function`s. */
module Wrappers {

  datatype Option<+T> = None | Some(value: T)
}

/** The optional value every call to the remote API yields: a parsed body, or nothing. */
module Wrappers {

  datatype Option<+T> = None | Some(value: T)

}

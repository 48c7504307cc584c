/** The optional value used wherever the servers may or may not produce a result. */
module Wrappers {

  datatype Option<+T> = None | Some(value: T)
}

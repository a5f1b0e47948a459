/** The optional value used where the source may fail to read a file. */
module Wrappers {

  datatype Option<+T> = None | Some(value: T)
}

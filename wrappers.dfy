/** The optional value used wherever PHP would produce `null`. */
module Wrappers {

  datatype Option<+T> = None | Some(value: T)

}

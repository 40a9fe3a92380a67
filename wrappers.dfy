/** The optional-value type used wherever the PHP code tests a key with isset(). */
module Wrappers {

  datatype Option<+T> = None | Some(value: T)
}

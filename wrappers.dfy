/** The optional value used wherever the script can raise instead of producing a result. */
module Wrappers {

  datatype Option<+T> = None | Some(value: T)
}

/** The optional value used for "the file may not exist" and "the session may hold no MAC". */
module Wrappers {

  datatype Option<+T> = None | Some(value: T)
}

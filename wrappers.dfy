/** The optional value used where the program returns `null` or "nothing found". */
module Wrappers {

  datatype Option<+T> = None | Some(value: T)
}

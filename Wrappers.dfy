/** The optional result used where the service answers "found" or "not found". */
module Wrappers {

  datatype Option<+T> = None | Some(value: T)
}

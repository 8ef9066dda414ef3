/** The conventional Some/None datatype, used where the scheduler may decide nothing. */
module Wrappers {

  datatype Option<+T> = None | Some(value: T)
}

/** The optional value used wherever the source uses `null` for "nothing yet". */
module Wrappers {

  datatype Option<+T> = None | Some(value: T)
}

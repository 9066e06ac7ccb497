/** The optional value used wherever the source yields "nothing" (a failed `find`, `NaN`). */
module Wrappers {
  datatype Option<+T> = None | Some(value: T)
}

/** The "value or nothing" type used wherever the source holds `null`/`undefined`. */
module Wrappers {
  datatype Option<+T> = None | Some(value: T)
}

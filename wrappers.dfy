/** A value that may be absent: JavaScript's `null` / `undefined` where the
    helpers and the converter accept or produce one. */
module Wrappers {

  datatype Option<+T> = None | Some(value: T)
}

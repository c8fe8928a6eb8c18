/** An optional value, for results that may be missing (a failed lookup, an aborted read). */
module Wrappers {

  datatype Option<+T> = None | Some(value: T)
}

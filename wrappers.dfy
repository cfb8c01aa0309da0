/** The JavaScript `null` a caller may get back instead of a value. */
module Wrappers {

  datatype Option<+T> = None | Some(value: T)
}

/** The optional value used where the application gets `undefined`, `null`
    or the `-1` of `findIndex`. */
module Wrappers {

  datatype Option<+T> = None | Some(value: T)
}

/** The optional value used for JavaScript's `undefined`/`null` and for optional properties. */
module Wrappers {

  datatype Option<+T> = None | Some(value: T)
}

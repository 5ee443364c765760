/** The optional value used for JavaScript's `undefined`, `null` and invalid results. */
module Wrappers {
  datatype Option<+T> = None | Some(value: T)
}

/** The optional value used for every `?:` field of a record and for the
    possibly-undefined target id of the tree filter. */
module Wrappers {

  /** `None` plays the part of JavaScript's `undefined`. */
  datatype Option<T> = None | Some(value: T)
}

/** The optional value: JavaScript's `undefined`/`null` beside a present value. */
module Wrappers {
  datatype Option<T> = None | Some(value: T)
}

/** A value that may be absent: the model's stand-in for JavaScript's
    `undefined`/`null` on an optional field. */
module Wrappers {

  datatype Option<+T> = None | Some(value: T)
}

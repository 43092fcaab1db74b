/** An optional value, standing for JavaScript's `undefined`/`false` where the scripts test for absence. */
module Wrappers {

  datatype Option<+T> = None | Some(value: T)
}

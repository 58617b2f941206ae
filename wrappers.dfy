/** The Option datatype used for JavaScript's "no value" cases: a field that
    is null or undefined, and a Number that is NaN. */
module Wrappers {

  datatype Option<+T> = None | Some(value: T)
}

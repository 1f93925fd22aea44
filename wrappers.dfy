/** A value that may be absent: a missing query parameter, an optional JSON field, a
    number that did not parse (JavaScript's NaN). */
module Wrappers {

  datatype Option<T> = None | Some(value: T)
}

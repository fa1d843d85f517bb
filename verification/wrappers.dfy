/** An optional value: JavaScript's `null` where the scanner uses it as "no value". */
module Wrappers {

  datatype Option<T> = None | Some(value: T)
}

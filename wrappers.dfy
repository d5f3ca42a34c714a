/** The optional value the validator's lookups return (`null` / `undefined` in the source). */
module Wrappers {

  datatype Option<+T> = None | Some(value: T)
}

/** The optional value used for "attribute present or absent" and "timer pending or not". */
module Wrappers {
  datatype Option<T> = None | Some(value: T)
}

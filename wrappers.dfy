/** The optional values of the source (`T | null`, an optional key `k?: T`). */
module Wrappers {

  datatype Option<+T> = None | Some(value: T)

}

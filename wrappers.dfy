/** The optional value used where the source returns `undefined`, `null` or `[]`. */
module Wrappers {

  datatype Option<+T> = None | Some(value: T)

}

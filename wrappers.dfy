/** The optional value used for missing cells, missing keys and absent columns. */
module Wrappers {

  datatype Option<+T> = None | Some(value: T)
}

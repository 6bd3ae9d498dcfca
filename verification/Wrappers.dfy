/** The optional result used when reading a displayed line back. */
module Wrappers {

  datatype Option<+T> = None | Some(value: T)
}

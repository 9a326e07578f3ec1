/** The optional value used wherever the modelled code can fail or has nothing to return. */
module Wrappers {
  datatype Option<+T> = None | Some(value: T)
}

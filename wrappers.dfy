/** The optional value a node holds: `None` until the node is resolved. */
module Wrappers {

  datatype Option<+T> = None | Some(value: T)
}

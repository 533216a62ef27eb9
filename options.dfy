/** The optional slot used for a node's leaf and children. */
module Options {
  datatype Option<+T> = None | Some(value: T)
}

/** The optional values that the components below pass around. */
module Options {
  datatype Option<+T> = None | Some(value: T)
}

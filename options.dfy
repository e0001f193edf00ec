/** Java's nullable references, as a value. */
module Options {

  datatype Option<+T> = None | Some(value: T)
}

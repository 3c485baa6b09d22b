/** The result of a reader that may reject its input. */
module Options {
  datatype Option<T> = None | Some(value: T)
}

module Options {
  /** A value that may be absent (`null` in the tables). */
  datatype Option<+T> = None | Some(value: T)
}

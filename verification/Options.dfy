/** The null pointer and the missing value. */
module Options {
  datatype Option<+T> = None | Some(value: T)
}

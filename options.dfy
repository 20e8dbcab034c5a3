/** The optional value used for nullable columns and for absent rows or users. */
module Options {
  datatype Option<+T> = None | Some(value: T)
}

/** The optional value used for "no match", a missing reply and a NULL column. */
module Options {
  datatype Option<+T> = None | Some(value: T)
}

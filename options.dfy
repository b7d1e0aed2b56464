/** The optional value used wherever the source returns `undefined` for "no result". */
module Options {
  datatype Option<+T> = None | Some(value: T)
}

/** The optional value used wherever a source operation can come back empty. */
module Options {
  datatype Option<+T> = None | Some(value: T)
}

/** The optional value used wherever the extension tests "found or not". */
module Options {
  datatype Option<+T> = None | Some(value: T)
}

// A shared wrapper: an optional column.
module Options {
  datatype Option<+T> = None | Some(value: T)
}

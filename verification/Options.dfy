// A value that may be absent: the models' rendering of Python's None.
module Options {
  datatype Option<+T> = None | Some(value: T)
}

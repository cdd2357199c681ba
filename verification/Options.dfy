/** The optional values the program's `Option` stands for. */
module Options {
  datatype Option<+T> = None | Some(value: T)
}

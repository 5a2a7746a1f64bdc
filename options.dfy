/** The optional value used wherever the program raises an exception or a lookup can miss. */
module Options {

  datatype Option<+T> = None | Some(value: T)
}

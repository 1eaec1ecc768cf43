/** The optional value used for nullable snapshot fields and absent cookies. */
module Options {

  datatype Option<+T> = None | Some(value: T)
}

/** The optional value that the source spells `None` or a plain value. */
module Options {

  datatype Option<+T> = None | Some(value: T)
}

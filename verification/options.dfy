/** The optional value used wherever the source passes a possibly-null reference. */
module Options {

  datatype Option<+T> = None | Some(value: T)

}

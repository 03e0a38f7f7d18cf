/** The optional value used for the null pointers and "no result" cases of the model. */
module Options {

  datatype Option<+T> = None | Some(value: T)
}

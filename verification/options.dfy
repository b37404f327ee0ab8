/** An optional value, used for the outcome of a pop. */
module Options {

  datatype Option<+T> = None | Some(value: T)
}

/** An optional value, the result of a conversion that may not fit. */
module Options {

  datatype Option<+T> = None | Some(value: T)
}

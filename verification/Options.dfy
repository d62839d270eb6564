/** A value that may be missing: a null pointer, an absent row, a conversion that failed. */
module Options {

  datatype Option<+T> = None | Some(value: T)
}

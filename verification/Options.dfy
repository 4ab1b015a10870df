/** A value that may be absent: the sources' `None`, null and refused results. */
module Options {
  datatype Option<+T> = None | Some(value: T)
}

/** A value that may be missing: the failures, refusals and panics of the modelled code. */
module Options {
  datatype Option<+T> = None | Some(value: T)
}

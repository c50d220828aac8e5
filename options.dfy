/** The optional value used wherever the modelled code can raise instead of returning. */
module Options {
  datatype Option<+T> = None | Some(value: T)
}

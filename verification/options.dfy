/** The optional value used wherever a field, a search or an effect may be absent. */
module Options {

  datatype Option<+T> = None | Some(value: T)
}

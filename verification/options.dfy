/** An optional value, used for absent links and for "not found" results. */
module Options {
  datatype Option<+T> = None | Some(value: T)
}

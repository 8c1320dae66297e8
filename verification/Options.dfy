/** A value that may be absent: the simulator's null pointers and failed lookups. */
module Options {
  datatype Option<+T> = None | Some(value: T)
}

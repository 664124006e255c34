/** An optional value: a setting or a timer state that may be absent. */
module Options {
  datatype Option<T> = None | Some(value: T)
}

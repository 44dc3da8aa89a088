/** An optional value: None stands for a missing result or for a NaN cell of the price table. */
module Options {
  datatype Option<T> = None | Some(value: T)
}

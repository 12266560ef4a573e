/** The usual Some/None wrapper, for results JavaScript reports as NaN,
    `null` or "no match". */
module Optional {
  datatype Option<T> = None | Some(value: T)
}

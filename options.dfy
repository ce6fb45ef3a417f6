/** The optional value used for React state that may hold `null`. */
module Options {
  datatype Option<T> = None | Some(value: T)
}

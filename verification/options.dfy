/** Python's "`None` or a value", as the scrapers return it. */
module Options {
  datatype Option<T> = None | Some(value: T)
}

/** The optional value used where the source returns `None` or raises for an absent item. */
module Options {
  datatype Option<T> = None | Some(value: T)
}

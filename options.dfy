/** The optional value the engine uses for its nullable pointers. */
module Options {
  datatype Option<+T> = None | Some(value: T)
}

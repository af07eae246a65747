/** An optional value: what Python expresses with None or with an exception that ends a step. */
module Options {
  datatype Option<+T> = None | Some(value: T)
}

/** The optional value used across the model for a JSON field that may be absent. */
module Options {

  datatype Option<+T> = None | Some(value: T)
}

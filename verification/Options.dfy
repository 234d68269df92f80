/** The optional values of the model: nullable columns and lookups that may find no row. */
module Options {

  datatype Option<+T> = None | Some(value: T)
}

/** Python's `None`-or-value, used for nullable fields and absent request parameters. */
module Options {

  datatype Option<+T> = None | Some(value: T)
}

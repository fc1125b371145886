/** The optional value used wherever the source returns `None` or catches a `KeyError`. */
module Options {

  datatype Option<+T> = None | Some(value: T)

}

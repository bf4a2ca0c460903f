/** The optional value used for the cards' slots: `null` in the source is `None`. */
module Options {

  datatype Option<+T> = None | Some(value: T)
}

/** An optional value: used for `items.find`, for the id list handed to `onChange`
    (present only when the callback is called) and for the row a key asks to scroll to. */
module Options {
  datatype Option<+T> = None | Some(value: T)
}

/** An optional value: how the model represents a request field that the
    client may leave out of the JSON body. */
module Options {

  datatype Option<+T> = None | Some(value: T) {

    /** The carried value, or `default` when the field was left out. */
    function GetOr(default: T): T {
      match this
      case Some(v) => v
      case None => default
    }
  }
}

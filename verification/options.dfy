/** The optional-value datatype shared by the model: a JSON field that may be
    missing or null on the server, and a `parseInt` that may yield NaN on the
    client, are both `None`. */
module Options {

  datatype Option<+T> = None | Some(value: T) {

    /** The wrapped value, or `default` when there is none. */
    function GetOr(default: T): T {
      match this
      case Some(v) => v
      case None => default
    }
  }
}

/** The optional value used throughout the model for JavaScript's
    `null`/`undefined` alternatives. */
module Optional {

  datatype Option<T> = None | Some(value: T) {

    /** The value, or `default` when there is none (`x || default` and
        `x ?? default` in the source). */
    function GetOr(default: T): T {
      match this
      case Some(v) => v
      case None => default
    }
  }
}

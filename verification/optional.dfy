/** The optional value used where the page script has `null`/`undefined`. */
module Optional {

  datatype Option<+T> = None | Some(value: T) {

    /** The value, or `default` when there is none: JavaScript's `x || default`
        for a value whose only falsy form is its absence. */
    function GetOr(default: T): T {
      match this
      case Some(v) => v
      case None => default
    }
  }
}

/** An optional value, used for JavaScript arguments that may be omitted. */
module Options {

  datatype Option<+T> = None | Some(value: T) {

    /** The held value, or `default` when the argument was omitted. */
    function GetOr(default: T): T {
      match this
      case Some(v) => v
      case None => default
    }
  }
}

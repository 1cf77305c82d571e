/** The Some/None datatype used for JavaScript's `null`/`undefined` fields and
    for operations that may produce nothing. */
module Optional {

  datatype Option<+T> = None | Some(value: T) {

    /** The encapsulated value, or `default` when there is none (JavaScript's `??`). */
    function GetOr(default: T): T {
      match this
      case Some(v) => v
      case None => default
    }
  }
}

/** The usual optional value, for lookups that may find nothing. */
module Options {

  datatype Option<+T> = None | Some(value: T) {

    /** The value when there is one, the default otherwise. */
    function GetOr(default: T): T {
      match this
      case Some(v) => v
      case None => default
    }
  }
}

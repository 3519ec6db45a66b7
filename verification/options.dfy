/** A minimal optional value, used for patches and for a storage read that found nothing. */
module Options {

  datatype Option<T> = None | Some(value: T) {

    /** The carried value, or `fallback` when there is none. */
    function GetOr(fallback: T): T {
      match this
      case Some(v) => v
      case None => fallback
    }
  }
}

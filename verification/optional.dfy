/** A Java reference that may be null, as a value. */
module Optional {

  datatype Option<+T> = None | Some(value: T) {

    /** The value, or `default` when the reference is null (the `getOrDefault` idiom). */
    function GetOr(default: T): (r: T)
      ensures Some? ==> r == value
      ensures None? ==> r == default
    {
      match this
      case Some(v) => v
      case None => default
    }
  }
}

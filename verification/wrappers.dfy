/** The `std::optional` of the tutorials: a value or nothing. */
module Wrappers {

  datatype Option<+T> = None | Some(value: T) {

    /** `value_or`: the held value, or `default` when there is none. */
    function GetOr(default: T): T {
      match this
      case Some(v) => v
      case None => default
    }
  }
}

/** Option and Result, the two failure-carrying wrappers the model uses in
    place of Java's `null` and thrown exceptions. */
module Wrappers {

  /** `None` stands for a Java `null` or an absent value. */
  datatype Option<+T> = None | Some(value: T) {
    function GetOr(default: T): (v: T) {
      match this
      case Some(v) => v
      case None => default
    }
  }

  /** `Failure` stands for an exception thrown out of the modelled code. */
  datatype Result<+R, +E> = Success(value: R) | Failure(error: E)
}

/** An optional value: the model's stand-in for a C# reference or string that may be null. */
module Wrappers {

  datatype Option<+T> = None | Some(value: T) {

    /** The value inside Some, or the given default when None (the `??` operator). */
    function GetOr(default: T): T {
      match this
      case Some(v) => v
      case None => default
    }
  }
}

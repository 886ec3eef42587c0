/** An optional value: the model's stand-in for a null pointer, a missing
    `optarg`, or a text-to-value extraction that threw. */
module Wrappers {

  datatype Option<+T> = None | Some(value: T) {

    /** The value held, or `default` when there is none. */
    function GetOr(default: T): T {
      match this
      case Some(v) => v
      case None => default
    }
  }
}

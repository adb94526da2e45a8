/** The nullable-reference idiom of the modelled C# code: `string?` and
    `object?` become `Option<T>`, with `None` standing for `null`. */
module Wrappers {

  datatype Option<+T> = None | Some(value: T) {

    /** The wrapped value, or `default` when this is `None`. */
    function GetOr(default: T): T {
      match this
      case Some(v) => v
      case None => default
    }
  }
}

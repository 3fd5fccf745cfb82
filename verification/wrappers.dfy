/** The optional value used wherever the source returns a null pointer or an invalid index. */
module Wrappers {

  datatype Option<T> = None | Some(value: T) {
    predicate IsSome() { this.Some? }

    function GetOr(default: T): T
    {
      match this
      case Some(v) => v
      case None => default
    }
  }
}

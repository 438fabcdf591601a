/** The optional value used for JavaScript fields that may be missing or null. */
module Wrappers {

  datatype Option<+T> = None | Some(value: T)

  /** A JSON field that upstream sends either as one object or as an array. */
  datatype OneOrMany<T> = One(item: T) | Many(items: seq<T>)

  /** The field as a list: a single object becomes a one-element list. */
  function AsList<T>(v: OneOrMany<T>): seq<T> {
    match v
    case One(x) => [x]
    case Many(xs) => xs
  }
}

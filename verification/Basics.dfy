/** What several modules share: bytes, optional values, JSON trees, a growable vector, and two laws. */
module Basics {

  type Byte = b: int | 0 <= b < 256

  datatype Option<+T> = None | Some(value: T)

  /** A JSON value as the server handles it after parsing. Objects are keyed and hold each key once. */
  datatype Json =
    | Null
    | Bool(flag: bool)
    | Int(number: int)
    | Float(value: real)
    | Str(text: string)
    | Arr(items: seq<Json>)
    | Obj(fields: map<string, Json>)

  /** A vector that callees grow through a reference they are handed. */
  class Vector<T> {
    var items: seq<T>

    constructor ()
      ensures items == []
    {
      items := [];
    }

    method PushBack(x: T)
      modifies this
      ensures items == old(items) + [x]
    {
      items := items + [x];
    }
  }

  lemma Regroup<T>(a: seq<T>, b: seq<T>, c: seq<T>)
    ensures a + b + c == a + (b + c)
  {
  }

  lemma MulMonotone(a: int, b: int, s: int)
    requires a <= b && s >= 0
    ensures a * s <= b * s
  {
  }
}

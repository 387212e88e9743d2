/** Small vocabulary shared by every module. */
module Prelude {

  datatype Option<+T> = None | Some(value: T)

  datatype Result<+T, +E> = Ok(value: T) | Err(error: E)

  /** A node identifier. */
  type NodeId = string

  /** An octet. */
  type Byte = x: int | 0 <= x < 256

  type Bytes = seq<Byte>

  /** Clock readings are integers counting nanoseconds. */
  const NANOS_PER_SECOND := 1_000_000_000

  /** Whole seconds of a clock reading, rounded down. */
  function Unix(now: int): int {
    now / NANOS_PER_SECOND
  }

  /** No element occurs twice. */
  ghost predicate Distinct<T(!new)>(s: seq<T>) {
    forall i, j | 0 <= i < j < |s| :: s[i] != s[j]
  }

  /** `order` visits every key of `keys` once. */
  ghost predicate Visits<K(!new)>(order: seq<K>, keys: set<K>) {
    Distinct(order) && |order| == |keys| && forall k :: k in order <==> k in keys
  }

  /** The order a loop over a map happens to take: any order at all. */
  method AnyOrder<K(!new,==)>(keys: set<K>) returns (order: seq<K>)
    ensures Visits(order, keys)
  {
    order := [];
    var left := keys;
    while left != {}
      invariant left <= keys
      invariant Distinct(order) && |order| == |keys| - |left|
      invariant forall k :: k in order <==> k in keys && k !in left
    {
      var k :| k in left;
      order := order + [k];
      left := left - {k};
    }
  }

  /** A decoded JSON value. */
  datatype Json =
    | JNull
    | JBool(b: bool)
    | JNum(n: int)
    | JStr(s: string)
    | JArr(elems: seq<Json>)
    | JObj(members: map<string, Json>)

  /** A decoded JSON object: one metrics payload. */
  type Fields = map<string, Json>
}

/** JSON values as the header and payload hold them (serde_json's `Value`),
    with the two indexing operations the header stamping uses. */
module Json {

  datatype Value =
    | Null
    | Bool(b: bool)
    | Number(literal: string)  // the number's text; no floating point is modelled
    | Str(s: string)
    | Array(items: seq<Value>)
    | Object(fields: map<string, Value>)

  /** The members of an object; other values have none. */
  function Fields(v: Value): map<string, Value> {
    if v.Object? then v.fields else map[]
  }

  /** `v[key]`: the member's value, or `Null` when `v` is not an object or has
      no such member. */
  function Get(v: Value, key: string): (r: Value)
    ensures key !in Fields(v) ==> r == Null
  {
    if key in Fields(v) then Fields(v)[key] else Null
  }

  /** `v[key] = x`: a `Null` value first becomes an empty object, then the
      member is inserted or replaced. Any other kind of value makes serde_json
      panic, which callers must not do. */
  function Set(v: Value, key: string, x: Value): (r: Value)
    requires v.Null? || v.Object?
    ensures r.Object? && Get(r, key) == x
    ensures r.fields.Keys == Fields(v).Keys + {key}
    ensures forall k :: k in Fields(v) && k != key ==> r.fields[k] == Fields(v)[k]
  {
    Object(Fields(v)[key := x])
  }

  /** Reading after writing: the written member reads back as written and
      every other member reads as before, which is what lets `encode` test
      `typ` after it has written `alg`. */
  lemma GetSet(v: Value, key: string, x: Value, other: string)
    requires v.Null? || v.Object?
    ensures Get(Set(v, key, x), other) == if other == key then x else Get(v, other)
  {
  }
}

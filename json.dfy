/**
 * Parsed JSON values as JavaScript sees them after `JSON.parse`, with the
 * JavaScript notions the core uses on them: truthiness and property lookup.
 */
module Json {
  import opened Options

  /** An object member; objects keep their members in enumeration order. */
  datatype Field = Field(key: string, value: Json)

  datatype Json =
    | JNull
    | JBool(b: bool)
    | JNum(n: int)
    | JStr(s: string)
    | JArr(elems: seq<Json>)
    | JObj(fields: seq<Field>)

  /** JavaScript truthiness: `null`, `false`, `0` and `""` are falsy. */
  predicate Truthy(j: Json) {
    match j
    case JNull => false
    case JBool(b) => b
    case JNum(n) => n != 0
    case JStr(s) => s != ""
    case JArr(_) => true
    case JObj(_) => true
  }

  /** Truthiness of a property read, where `None` is `undefined`. */
  predicate TruthyOpt(o: Option<Json>) {
    o.Some? && Truthy(o.value)
  }

  /** The position of the first member named `key`, or `|fields|` when there is none. */
  function FieldIndex(fields: seq<Field>, key: string): (i: nat)
    ensures i <= |fields|
    ensures i < |fields| ==> fields[i].key == key
    ensures forall k :: 0 <= k < i ==> fields[k].key != key
  {
    if fields == [] then 0
    else if fields[0].key == key then 0
    else 1 + FieldIndex(fields[1..], key)
  }

  /** `j[key]`: the member of an object, `undefined` (None) otherwise. */
  function Get(j: Json, key: string): (r: Option<Json>)
    ensures r.Some? <==> j.JObj? && exists f :: f in j.fields && f.key == key
    ensures r.Some? ==> Field(key, r.value) in j.fields
  {
    if j.JObj? && FieldIndex(j.fields, key) < |j.fields| then
      Some(j.fields[FieldIndex(j.fields, key)].value)
    else None
  }

  /** `j[key] === JStr(s)`. */
  predicate HasString(j: Json, key: string, s: string) {
    Get(j, key) == Some(JStr(s))
  }
}

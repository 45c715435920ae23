/**
 * The JSON value tree the program exchanges with the flashcard service
 * (serde_json's `Value`), together with the accessors the reconciler uses
 * on responses. Text rendering and parsing of JSON are not modelled: a
 * request or response is this tree.
 */
module Json {
  import opened Wrappers

  /** Numbers are integers only: every number the program sends or reads is an id or a version. */
  datatype Json =
    | JNull
    | JBool(b: bool)
    | JNum(n: int)
    | JStr(s: string)
    | JArr(items: seq<Json>)
    | JObj(members: map<string, Json>)

  /** `Value::get` with a string index: the member of an object, `None` for a missing key or a non-object. */
  function Get(v: Json, key: string): (r: Option<Json>)
    ensures r.Some? <==> v.JObj? && key in v.members
    ensures r.Some? ==> r.value == v.members[key]
  {
    if v.JObj? && key in v.members then Some(v.members[key]) else None
  }

  /** `Value::as_array`. */
  function AsArray(v: Json): (r: Option<seq<Json>>)
    ensures r.Some? <==> v.JArr?
    ensures r.Some? ==> r.value == v.items
  {
    if v.JArr? then Some(v.items) else None
  }

  /** `Value::as_object`. */
  function AsObject(v: Json): (r: Option<map<string, Json>>)
    ensures r.Some? <==> v.JObj?
    ensures r.Some? ==> r.value == v.members
  {
    if v.JObj? then Some(v.members) else None
  }

  /** `Value::is_null`. */
  predicate IsNull(v: Json) {
    v.JNull?
  }
}

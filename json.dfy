/** A generic JSON tree, standing for `serde_json::Value`. An object keeps
    its fields in iteration order (sorted keys by default in serde_json,
    insertion order with its `preserve_order` feature); the model does not
    depend on which. */
module Json {
  import opened Wrappers

  datatype Json =
    | Null
    | Bool(b: bool)
    | Num(n: int)
    | Str(s: string)
    | Arr(items: seq<Json>)
    | Obj(fields: seq<Field>)

  datatype Field = Field(key: string, val: Json)

  /** Value at `key` among `fields`: the first field with that key (keys of
      a parsed object are unique, so it is the only one). */
  function Lookup(fields: seq<Field>, key: string): (r: Option<Json>)
    ensures r.Some? <==> exists i :: 0 <= i < |fields| && fields[i].key == key
    ensures r.Some? ==> exists i :: 0 <= i < |fields| && fields[i].key == key && fields[i].val == r.value
  {
    if fields == [] then None
    else if fields[0].key == key then Some(fields[0].val)
    else Lookup(fields[1..], key)
  }

  /** `Value::get(key)`: only objects have members. */
  function Get(v: Json, key: string): (r: Option<Json>)
    ensures r.Some? ==> v.Obj?
  {
    if v.Obj? then Lookup(v.fields, key) else None
  }

  /** `Option<&Value>::and_then(as_str)`. */
  function AsStr(v: Option<Json>): Option<string> {
    if v.Some? && v.value.Str? then Some(v.value.s) else None
  }

  /** `v.get(key).and_then(|x| x.as_str())`. */
  function GetStr(v: Json, key: string): Option<string> {
    AsStr(Get(v, key))
  }

  /** `v.get(key).and_then(|x| x.as_array())`. */
  function GetArray(v: Json, key: string): Option<seq<Json>> {
    var x := Get(v, key);
    if x.Some? && x.value.Arr? then Some(x.value.items) else None
  }
}

/** The part of a JSON document tree (serde_json's `Value`) that the
    channel parser looks at, with its accessors. */
module Json {
  import opened Wrappers

  /** A JSON value. An object maps each key to one value; numbers are
      kept as their text, since nothing here reads them. */
  datatype Json =
    | Null
    | Bool(b: bool)
    | Number(text: string)
    | Str(s: string)
    | Arr(items: seq<Json>)
    | Obj(fields: map<string, Json>)

  /** `Value::get` with a key: the member of an object under that key;
      None for a missing key and for any value that is not an object. */
  function Get(v: Json, key: string): (r: Option<Json>)
    ensures r.Some? <==> v.Obj? && key in v.fields
    ensures r.Some? ==> r.value == v.fields[key]
  {
    match v
    case Obj(fields) => if key in fields then Some(fields[key]) else None
    case _ => None
  }

  /** `Value::as_array`. */
  function AsArray(v: Json): Option<seq<Json>>
  {
    match v
    case Arr(items) => Some(items)
    case _ => None
  }

  /** `Value::as_str`. */
  function AsStr(v: Json): Option<string>
  {
    match v
    case Str(s) => Some(s)
    case _ => None
  }

  /** `v.get(key).and_then(|x| x.as_str())`: a string member. */
  function GetStr(v: Json, key: string): (r: Option<string>)
    ensures r.Some? <==> Get(v, key).Some? && Get(v, key).value.Str?
    ensures r.Some? ==> Get(v, key) == Some(Str(r.value))
  {
    match Get(v, key)
    case Some(x) => AsStr(x)
    case None => None
  }

  /** `v.get(key).and_then(|x| x.as_array())`: an array member. */
  function GetArray(v: Json, key: string): (r: Option<seq<Json>>)
    ensures r.Some? <==> Get(v, key).Some? && Get(v, key).value.Arr?
    ensures r.Some? ==> Get(v, key) == Some(Arr(r.value))
  {
    match Get(v, key)
    case Some(x) => AsArray(x)
    case None => None
  }
}

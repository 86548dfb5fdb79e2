/** JSON documents. Objects are maps: the order of their members carries no meaning. */
module Json {
  import opened Wrappers

  datatype Value =
    | Null
    | Bool(flag: bool)
    | Number(number: int)
    | String(text: string)
    | Array(items: seq<Value>)
    | Object(fields: map<string, Value>)

  /** The value a path of object keys leads to. */
  function Lookup(v: Value, path: seq<string>): Option<Value>
    decreases |path|
  {
    if path == [] then Some(v)
    else if v.Object? && path[0] in v.fields then Lookup(v.fields[path[0]], path[1..])
    else None
  }
}

/** The shape of a serde_json `Value` as far as the collector inspects it. */
module Json {
  import opened Outcomes

  /** A JSON value: an integer number, a string, an object, or anything else
      (null, booleans, floating-point numbers, arrays), which the collector
      never reads as a calendar field or an energy count. */
  datatype JsonValue =
    | JInt(n: int)
    | JStr(s: string)
    | JObj(fields: map<string, JsonValue>)
    | JOther

  /** `Value::get`: the member `key` of an object; nothing for any other value. */
  function Get(v: JsonValue, key: string): (r: Option<JsonValue>)
    ensures r.Some? <==> v.JObj? && key in v.fields
    ensures r.Some? ==> r.value == v.fields[key]
  {
    if v.JObj? && key in v.fields then Some(v.fields[key]) else None
  }

  /** `value.get(key).unwrap_or(default)`. */
  function GetOr(v: JsonValue, key: string, default: JsonValue): (r: JsonValue)
    ensures Get(v, key).None? ==> r == default
    ensures Get(v, key).Some? ==> r == Get(v, key).value
  {
    match Get(v, key)
    case Some(x) => x
    case None => default
  }
}

/**
  Decoded JSON values.  The text grammar is not part of the model: a payload is the value
  `json.loads` gives, or `None` where decoding fails.
 */
module Json {
  import opened Wrappers
  import opened Powers

  datatype Value =
    | Null
    | Boolean(flag: bool)
    | Integer(number: int)
    | Float
    | Text(text: string)
    | Array(items: seq<Value>)
    | Object(fields: map<string, Value>)

  type Payload = Option<Value>

  /** `dict.get`: a missing field reads as null. */
  function Get(fields: map<string, Value>, key: string): Value {
    if key in fields then fields[key] else Null
  }

  /** `isinstance(value, int)`, which in Python also holds of booleans. */
  function AsInt(v: Value): Option<int> {
    match v
    case Integer(n) => Some(n)
    case Boolean(b) => Some(if b then 1 else 0)
    case _ => None
  }

  /** `_u64`: exactly an integer, not a boolean, within 64 unsigned bits. */
  function AsU64(v: Value): Option<nat> {
    if v.Integer? && 0 <= v.number <= U64_MAX then Some(v.number) else None
  }
}

/** Values as `JSON.parse` produces them, plus `undefined`. */
module JsonValues {

  datatype Json =
    | Undefined
    | Null
    | Bool(b: bool)
    | Num(n: real)
    | Str(s: string)
    | Arr(items: seq<Json>)
    | Obj(fields: map<string, Json>)
  {
    /** `v && typeof v === "object"`: objects and arrays, never `null`. */
    predicate IsObject() { Obj? || Arr? }

    /** Property read. The names the models read are not own properties of arrays. */
    function Get(name: string): Json {
      if Obj? && name in fields then fields[name] else Undefined
    }
  }

  /** The own enumerable properties that `{ ...v }` copies. */
  function Spread(v: Json): map<string, Json> {
    match v
    case Obj(fields) => fields
    case Arr(items) => ElementsByIndex(items)
    case _ => map[]
  }

  function ElementsByIndex(items: seq<Json>): map<string, Json> {
    if |items| == 0 then map[]
    else ElementsByIndex(items[..|items| - 1])[Decimal(|items| - 1) := items[|items| - 1]]
  }

  function Decimal(n: nat): string {
    if n < 10 then [Digit(n)] else Decimal(n / 10) + [Digit(n % 10)]
  }

  function Digit(d: nat): char
    requires d < 10
  {
    '0' + d as char
  }
}

/** JSON values as the review tool sees them after `JSON.parse`, and the few
    JavaScript operations the tool applies to record fields: property lookup
    (which yields `undefined` for a missing key), property assignment of a
    possibly-`undefined` value, truthiness and the `x || ''` default. */
module Json {

  datatype Option<+T> = None | Some(value: T)

  /** A parsed JSON value. Numbers are kept as reals rather than doubles,
      which matters here only for truthiness: `JSON.parse` never produces
      NaN, and an overflowing literal gives an infinity, which is truthy,
      so zero is the only falsy number. */
  datatype Value =
    | Null
    | Bool(b: bool)
    | Num(x: real)
    | Str(s: string)
    | Arr(items: seq<Value>)
    | Obj(fields: map<string, Value>)

  /** One line of the file: a JSON object, its fields by name. */
  type Record = map<string, Value>

  /** JavaScript truthiness of a value that is present. */
  predicate Truthy(v: Value) {
    match v
    case Null => false
    case Bool(b) => b
    case Num(x) => x != 0.0
    case Str(s) => s != ""
    case Arr(_) => true
    case Obj(_) => true
  }

  /** `record[key]`: `None` stands for `undefined`. */
  function Get(r: Record, key: string): (v: Option<Value>)
    ensures v.Some? <==> key in r
    ensures v.Some? ==> v.value == r[key]
  {
    if key in r then Some(r[key]) else None
  }

  /** `{...record, [key]: d}` where `d` may be `undefined`. A key holding
      `undefined` is indistinguishable from a missing key for every later
      lookup and is dropped by `JSON.stringify`, so it is removed here. */
  function Put(r: Record, key: string, d: Option<Value>): (r': Record)
    ensures Get(r', key) == d
    ensures forall k :: k != key ==> Get(r', k) == Get(r, k)
  {
    match d
    case Some(v) => r[key := v]
    case None => r - {key}
  }

  /** `d || ''`: the value itself when it is present and truthy, otherwise
      the empty string. */
  function OrEmpty(d: Option<Value>): (v: Value)
    ensures d.Some? && Truthy(d.value) ==> v == d.value
    ensures !(d.Some? && Truthy(d.value)) ==> v == Str("")
  {
    if d.Some? && Truthy(d.value) then d.value else Str("")
  }
}

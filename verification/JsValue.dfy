/** JavaScript values, as far as the bot's code can observe them. */
module JsValue {

  /** A JavaScript value. `Num` holds a finite number only: NaN and the
      infinities (which `JSON.parse("1e400")` can yield) are not represented. */
  datatype Value =
    | Undefined
    | Null
    | Bool(b: bool)
    | Num(n: real)
    | Str(s: string)
    | Arr(items: seq<Value>)
    | Obj(fields: map<string, Value>)

  /** JavaScript's ToBoolean: what `if (v)` and `v && ...` test. */
  predicate Truthy(v: Value) {
    match v
    case Undefined => false
    case Null => false
    case Bool(b) => b
    case Num(n) => n != 0.0
    case Str(s) => s != ""
    case Arr(_) => true
    case Obj(_) => true
  }

  /** `undefined` or `null`: the values `??` replaces and on which a
      property read throws. */
  predicate Nullish(v: Value) {
    v.Undefined? || v.Null?
  }

  /** `v ?? fallback`. */
  function Coalesce(v: Value, fallback: Value): Value {
    if Nullish(v) then fallback else v
  }

  /** The property read `v.key` on a value that is not nullish: an object's
      own property, or `undefined` when it has none. Primitives and arrays
      carry none of the keys this bot reads (`type`, `challenge`, `event`,
      `command`, `channel`, `ts`, `channel_id`, `user_id`). */
  function Get(v: Value, key: string): Value
    requires !Nullish(v)
  {
    if v.Obj? && key in v.fields then v.fields[key] else Undefined
  }

  /** The object whose own properties are the entries of `m`, each a string. */
  function StringObject(m: map<string, string>): (v: Value)
    ensures v.Obj? && v.fields.Keys == m.Keys
    ensures forall k :: k in m ==> Get(v, k) == Str(m[k])
  {
    Obj(map k | k in m :: Str(m[k]))
  }
}

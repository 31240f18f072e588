/** The JavaScript values the three services read and build: parsed JSON,
    plus `undefined` for a property that is absent. Property reads, strict
    equality (`===`) and truthiness (`||`, `!`) are defined here once. */
module JsValues {

  datatype Option<+T> = None | Some(value: T)

  /** A JSON value as produced by `JSON.parse` / `response.json()`, plus
      `undefined`. Numbers are reals, so NaN, the infinities and rounding to
      a double are not represented; `-0 === 0`, so real equality is `===`
      on finite numbers. */
  datatype JsValue =
    | Undefined
    | Null
    | Bool(b: bool)
    | Number(n: real)
    | Str(s: string)
    | Array(items: seq<JsValue>)
    | Object(fields: map<string, JsValue>)

  /** A plain object with its own enumerable properties. */
  type Record = map<string, JsValue>

  /** `o.k` on a plain object: an absent property reads as `undefined`. */
  function Get(o: Record, k: string): JsValue {
    if k in o then o[k] else Undefined
  }

  /** `null` or `undefined`: reading a property of one of these throws. */
  predicate IsNullish(v: JsValue) {
    v.Undefined? || v.Null?
  }

  /** `v.k` on a value that is not nullish: only objects have own
      properties among the names read here ("data", "SEMBOL", "SATIS", "id"),
      so every other value reads as `undefined`. */
  function Prop(v: JsValue, k: string): JsValue {
    match v
    case Object(m) => Get(m, k)
    case _ => Undefined
  }

  /** JavaScript's ToBoolean: `undefined`, `null`, `false`, `0` and `""` are
      falsy; every other value, each object and array included, is truthy. */
  predicate Truthy(v: JsValue) {
    match v
    case Undefined => false
    case Null => false
    case Bool(b) => b
    case Number(n) => n != 0.0
    case Str(s) => s != ""
    case Array(_) => true
    case Object(_) => true
  }
}

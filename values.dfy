/**
 * The JavaScript values that flow through the settings record: strings,
 * numbers, booleans, `null`, `undefined`, and the array of selected row ids.
 * A settings record is a string-keyed map; a key that is missing reads as
 * `undefined`, exactly like a key whose stored value is `undefined`.
 */
module JsValue {
  import opened JsString
  import opened JsNumber

  datatype Value =
    | Undefined
    | Null
    | Str(s: string)
    | Num(x: real)
    | Bool(b: bool)
    | Ids(ids: seq<string>)   // an array of strings, such as the selected row ids

  type Settings = map<string, Value>

  /** `m[k]`: the stored value, or `undefined` when the key is missing. */
  function Get(m: Settings, k: string): Value
  {
    if k in m then m[k] else Undefined
  }

  /** JavaScript truthiness: what `if (v)` and `!v` test. */
  predicate Truthy(v: Value)
  {
    match v
    case Undefined => false
    case Null => false
    case Str(s) => s != ""
    case Num(x) => x != 0.0
    case Bool(b) => b
    case Ids(_) => true
  }

  /** `a === b`: primitives by value; two arrays are never the same object here. */
  predicate StrictEquals(a: Value, b: Value)
  {
    !a.Ids? && a == b
  }

  /** `v == null`: true exactly for `null` and `undefined`. */
  predicate IsNullish(v: Value)
  {
    v.Null? || v.Undefined?
  }

  /** `Number(v)`, the conversion done by arithmetic, comparisons and `isNaN`. */
  function ToNumber(v: Value): (n: Number)
    ensures v.Num? ==> n == Finite(v.x)
    ensures v.Undefined? ==> n == NaN
  {
    match v
    case Undefined => NaN
    case Null => Finite(0.0)
    case Str(s) => StringToNumber(s)
    case Num(x) => Finite(x)
    case Bool(b) => Finite(if b then 1.0 else 0.0)
    case Ids(ids) => StringToNumber(Join(ids, ','))
  }

  /** `isNaN(v)`. */
  predicate IsNaN(v: Value)
  {
    ToNumber(v).NaN?
  }

  /**
   * `String(v)`, as string concatenation uses it. How a number is printed
   * (`Number.prototype.toString`) is the parameter `fmt`.
   */
  function ToString(v: Value, fmt: real -> string): string
  {
    match v
    case Undefined => "undefined"
    case Null => "null"
    case Str(s) => s
    case Num(x) => fmt(x)
    case Bool(b) => if b then "true" else "false"
    case Ids(ids) => Join(ids, ',')
  }
}

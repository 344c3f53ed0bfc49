/** The dynamically typed values that reach the entity constructors and the use
    cases as payload properties. */
module JsValues {

  /** A JavaScript value, as far as the validators can tell values apart.
      `DateV` is a `Date` instance, identified by its timestamp; `Obj` is any
      other non-array object. Numbers are integers (NaN is not modelled). */
  datatype JsValue =
    | Undef
    | Null
    | Bool(b: bool)
    | Num(n: int)
    | Str(s: string)
    | Arr(items: seq<JsValue>)
    | DateV(time: int)
    | Obj

  /** JavaScript truthiness: `undefined`, `null`, `false`, `0` and `''` are
      falsy; every object, array and Date is truthy, even an empty one. */
  predicate Truthy(v: JsValue) {
    match v
    case Undef => false
    case Null => false
    case Bool(b) => b
    case Num(n) => n != 0
    case Str(s) => s != ""
    case _ => true
  }

  /** A plain object: its own properties. A property that is absent reads as
      `undefined`. */
  type Object = map<string, JsValue>

  function Get(o: Object, key: string): JsValue {
    if key in o then o[key] else Undef
  }
}

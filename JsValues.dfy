// JavaScript values as the core's records hold them, and object spread.
module JsValues {

  /** A JavaScript value. Numbers are integers here (floating point is not modelled). */
  datatype JsValue =
    | Undefined
    | Null
    | Bool(b: bool)
    | Num(n: int)
    | Str(s: string)
    | Arr(elems: seq<JsValue>)
    | Obj(fields: map<string, JsValue>)

  /** A plain object literal: its own enumerable properties. */
  type Record = map<string, JsValue>

  /** Property access `o.k`: a missing property reads as `undefined`. */
  function Get(o: Record, k: string): (v: JsValue)
    ensures k !in o ==> v == Undefined
    ensures k in o ==> v == o[k]
  {
    if k in o then o[k] else Undefined
  }

  /** JavaScript truthiness, as `!` and conditionals use it. */
  predicate Truthy(v: JsValue) {
    match v
    case Undefined => false
    case Null => false
    case Bool(b) => b
    case Num(n) => n != 0
    case Str(s) => s != ""
    case Arr(_) => true
    case Obj(_) => true
  }

  /**
   * Object spread `{...base, ...over}`: every key of either object, the
   * value of `over` winning on a collision and the other keys of `base`
   * passed through.
   */
  function Spread<V>(base: map<string, V>, over: map<string, V>): (r: map<string, V>)
    ensures r.Keys == base.Keys + over.Keys
    ensures forall k :: k in over ==> r[k] == over[k]
    ensures forall k :: k in base && k !in over ==> r[k] == base[k]
  {
    base + over
  }

  /** Spreading the same overrides a second time changes nothing: `{...{...b, ...o}, ...o}` is `{...b, ...o}`. */
  lemma SpreadIdempotent<V>(base: map<string, V>, over: map<string, V>)
    ensures Spread(Spread(base, over), over) == Spread(base, over)
  {
  }

  /** Spreading the empty object (or `undefined`) leaves the base as it is. */
  lemma SpreadEmpty<V>(base: map<string, V>)
    ensures Spread(base, map[]) == base
  {
  }
}

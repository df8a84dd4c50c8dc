/** The values a request body can carry once Express has parsed it, with only
    the distinctions that JavaScript's truthiness test makes. */
module JsValues {

  /** A JSON value, or `undefined` for a key the body does not have.
      Numbers are finite reals: an out-of-range literal such as `1e400`
      parses to Infinity, which is truthy like every non-zero number, so the
      presence test treats it as any large number. Arrays and objects are
      kept opaque, since every one of them is truthy. */
  datatype JsValue =
    | Undefined
    | Null
    | Bool(b: bool)
    | Num(x: real)
    | Str(s: string)
    | Obj

  /** The values JavaScript treats as false: the only ones a `!v` test
      rejects. (NaN is falsy too, but JSON cannot carry it.) */
  const Falsy: set<JsValue> := {Undefined, Null, Bool(false), Num(0.0), Str("")}

  /** JavaScript's ToBoolean: `!v` is the negation of this. */
  predicate Truthy(v: JsValue)
    ensures Truthy(v) <==> v !in Falsy
  {
    match v
    case Undefined => false
    case Null => false
    case Bool(b) => b
    case Num(x) => x != 0.0
    case Str(s) => s != ""
    case Obj => true
  }

}

/**
  Request bodies as the backend receives them after JSON parsing, together with
  JavaScript's notion of truthiness and of property access, which every request
  handler of `canteen-automation-backend/server.js` uses to validate its input.
  JavaScript numbers are modelled as integers (money in minor units); NaN never
  arrives from JSON, so it is not a value here.
*/
module JsValues {
  import opened Wrappers

  datatype JsValue =
    | Undefined
    | Null
    | Bool(b: bool)
    | Num(n: int)
    | Str(s: string)
    | Arr(elems: seq<JsValue>)
    | Obj(fields: map<string, JsValue>)

  /** The object a JSON body parses to: its named fields. */
  type Body = map<string, JsValue>

  /** `!v` is false: the value is truthy. */
  predicate Truthy(v: JsValue) {
    match v
    case Undefined => false
    case Null => false
    case Bool(b) => b
    case Num(n) => n != 0
    case Str(s) => s != ""
    case Arr(_) => true
    case Obj(_) => true
  }

  /** Destructuring `const { k } = body`: a missing field reads as undefined. */
  function Field(body: Body, k: string): (v: JsValue)
    ensures k !in body ==> v == Undefined
    ensures k in body ==> v == body[k]
  {
    if k in body then body[k] else Undefined
  }

  /** Why a property read failed: reading a property of null or undefined throws. */
  datatype TypeError = TypeError

  /**
    `v.k`: an object yields its field (or undefined); other primitives have no
    such property and yield undefined; null and undefined throw a TypeError.
  */
  function Prop(v: JsValue, k: string): (r: Result<JsValue, TypeError>)
    ensures r.Failure? <==> v == Null || v == Undefined
    ensures v.Obj? && k in v.fields ==> r == Success(v.fields[k])
    ensures r.Success? && r.value != Undefined ==> v.Obj? && k in v.fields
  {
    match v
    case Undefined => Failure(TypeError)
    case Null => Failure(TypeError)
    case Obj(fields) => Success(if k in fields then fields[k] else Undefined)
    case _ => Success(Undefined)
  }
}

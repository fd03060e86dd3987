/** JSON values as the body parser hands them to the request handlers, and the
    JavaScript truth tests the handlers apply to them before touching the store. */
module Json {

  /** A value read from a parsed JSON request body. `Undefined` is what
      destructuring yields for a key the body does not have. JSON numbers are
      never NaN; this model holds the finite ones, as rationals. */
  datatype JsValue =
    | Undefined
    | Null
    | Bool(b: bool)
    | Num(n: real)
    | Str(s: string)
    | Arr(items: seq<JsValue>)
    | Obj(members: map<string, JsValue>)

  /** The members of a parsed request body. A body that parsed to an array has
      none of the keys the handlers read, so it is the empty map here. */
  type Body = map<string, JsValue>

  /** `const { key } = req.body` */
  function Field(body: Body, key: string): (v: JsValue)
    ensures key !in body ==> v == Undefined
    ensures key in body ==> v == body[key]
  {
    if key in body then body[key] else Undefined
  }

  /** JavaScript truthiness: `undefined`, `null`, `false`, `0`, `-0` and `""`
      are falsy; every other value, including `[]` and `{}`, is truthy. */
  predicate Truthy(v: JsValue)
    ensures !Truthy(v) <==>
              v == Undefined || v == Null || v == Bool(false) || v == Num(0.0) || v == Str("")
    ensures v.Arr? || v.Obj? ==> Truthy(v)
  {
    match v
    case Undefined => false
    case Null => false
    case Bool(b) => b
    case Num(n) => n != 0.0
    case Str(s) => s != ""
    case Arr(_) => true
    case Obj(_) => true
  }

  /** `typeof v === 'boolean'` */
  predicate IsBoolean(v: JsValue)
    ensures IsBoolean(v) <==> v == Bool(true) || v == Bool(false)
  {
    v.Bool?
  }
}

/** The JavaScript values a handler finds in a parsed JSON request body, and
    the tests the handlers apply to them (`!x`, `Array.isArray`, `typeof`). */
module Js {

  /** A JSON value, plus `Undefined` for a field the body does not carry.
      JSON numbers are decimal, so they are modelled as reals; the handlers
      only ever ask whether a number is zero. */
  datatype Value =
    | Undefined
    | Null
    | Bool(b: bool)
    | Number(x: real)
    | Str(s: string)
    | Array(items: seq<Value>)
    | Object(fields: map<string, Value>)

  /** `req.body` as `express.json()` leaves it: an object of named fields. */
  type Body = map<string, Value>

  /** Destructuring `const { name } = req.body`: an absent field is
      `undefined`, which every `!name` test then refuses. */
  function Field(body: Body, name: string): (r: Value)
    ensures name in body ==> r == body[name]
    ensures name !in body ==> r == Undefined && !Truthy(r)
  {
    if name in body then body[name] else Undefined
  }

  /** JavaScript truthiness: `!v` in the handlers is `!Truthy(v)`. */
  predicate Truthy(v: Value) {
    match v
    case Undefined => false
    case Null => false
    case Bool(b) => b
    case Number(x) => x != 0.0
    case Str(s) => s != ""
    case Array(_) => true
    case Object(_) => true
  }

  /** `Array.isArray(v) && v.length`: an array with at least one element. */
  predicate IsNonEmptyArray(v: Value) {
    v.Array? && |v.items| > 0
  }

  /** `typeof v === 'boolean'`: strictly a boolean, not merely truthy. */
  predicate IsBoolean(v: Value) {
    v.Bool?
  }
}

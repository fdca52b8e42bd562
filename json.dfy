/** JavaScript values as far as the image feature inspects them, and the JSON
    text that `JSON.stringify` writes into storage and `JSON.parse` reads back. */
module Json {
  import opened Wrappers

  /** A JavaScript number (an IEEE-754 double), kept as its exact value when finite. */
  datatype JsNumber = Finite(value: real) | PosInfinity | NegInfinity | NaN

  /** A JavaScript value. An object is represented by its `left` and `top`
      properties (Undefined when it has no such property): they are the only
      properties the feature reads from a parsed or computed position. */
  datatype JsValue =
    | Undefined
    | Null
    | Bool(b: bool)
    | Number(n: JsNumber)
    | Str(s: string)
    | Object(left: JsValue, top: JsValue)

  /** JavaScript truthiness, as used by `position && ...`. */
  predicate Truthy(v: JsValue) {
    match v
    case Undefined => false
    case Null => false
    case Bool(b) => b
    case Number(n) => n != NaN && n != Finite(0.0)
    case Str(s) => s != ""
    case Object(_, _) => true
  }

  /** `v.left` on a value that is neither null nor undefined: primitives have no `left`. */
  function LeftOf(v: JsValue): JsValue {
    if v.Object? then v.left else Undefined
  }

  /** `v.top` on a value that is neither null nor undefined. */
  function TopOf(v: JsValue): JsValue {
    if v.Object? then v.top else Undefined
  }

  /** A string held in storage: the JSON text of a value, or a text that
      `JSON.parse` rejects with a SyntaxError. */
  datatype Text = JsonText(value: JsValue) | Malformed(raw: string)

  /** Every number inside `v` is finite: the values JSON represents exactly. */
  predicate FiniteNumbers(v: JsValue) {
    match v
    case Number(n) => n.Finite?
    case Object(l, t) => FiniteNumbers(l) && FiniteNumbers(t)
    case _ => true
  }

  /** What a value nested in JSON text reads back as: `JSON.stringify` writes
      NaN and the infinities as `null`, and omits undefined properties, which
      then read back as undefined. */
  function Normalized(v: JsValue): JsValue {
    match v
    case Number(n) => if n.Finite? then v else Null
    case Object(l, t) => Object(Normalized(l), Normalized(t))
    case _ => v
  }

  /** `localStorage.setItem(k, JSON.stringify(v))`: a top-level undefined
      stringifies to undefined, which storage keeps as the text "undefined". */
  function Stringify(v: JsValue): (t: Text)
    ensures t.Malformed? <==> v == Undefined
    ensures t.JsonText? ==> FiniteNumbers(t.value)
  {
    NormalizedIsFinite(v);
    if v == Undefined then Malformed("undefined") else JsonText(Normalized(v))
  }

  /** `JSON.parse(t)`: None stands for the SyntaxError it throws. */
  function Parse(t: Text): Option<JsValue> {
    match t
    case JsonText(v) => Some(v)
    case Malformed(_) => None
  }

  lemma {:induction false} NormalizedIsFinite(v: JsValue)
    ensures FiniteNumbers(Normalized(v))
  {
    match v
    case Object(l, t) =>
      NormalizedIsFinite(l);
      NormalizedIsFinite(t);
    case _ =>
  }

  lemma {:induction false} NormalizedIdentity(v: JsValue)
    requires FiniteNumbers(v)
    ensures Normalized(v) == v
  {
    match v
    case Object(l, t) =>
      NormalizedIdentity(l);
      NormalizedIdentity(t);
    case _ =>
  }

  /** Round trip: a defined value whose numbers are all finite is read back unchanged. */
  lemma ParseStringify(v: JsValue)
    requires v != Undefined && FiniteNumbers(v)
    ensures Parse(Stringify(v)) == Some(v)
  {
    NormalizedIdentity(v);
  }
}

/**
 * The JavaScript values a parsed JSON request body is made of, and the three
 * operations the handlers apply to them: truthiness (`!x`, `x || y`), property
 * reads (`x.p`, which throws on `null` and `undefined`) and optional chaining
 * (`x?.p`, which yields `undefined` there instead).
 */
module Json {
  import opened Wrappers

  /**
   * `Undefined` stands for an absent property. Numbers are exact reals.
   * An object maps each own property name to its value.
   */
  datatype JsValue =
    | Undefined
    | Null
    | Bool(b: bool)
    | Num(n: real)
    | Str(s: string)
    | Arr(items: seq<JsValue>)
    | Obj(props: map<string, JsValue>)

  /** `null` or `undefined`: the values a property read throws on. */
  predicate Nullish(v: JsValue) {
    v.Undefined? || v.Null?
  }

  /** JavaScript's ToBoolean: `undefined`, `null`, `false`, `0` and `""` are falsy, all else truthy. */
  predicate Truthy(v: JsValue)
    ensures Truthy(v) ==> !Nullish(v)
    ensures v.Arr? || v.Obj? ==> Truthy(v)
  {
    match v
    case Undefined => false
    case Null => false
    case Bool(b) => b
    case Num(n) => n != 0.0
    case Str(s) => s != ""
    case Arr(_) => true
    case Obj(_) => true
  }

  /** `a || b`: `a` when it is truthy, `b` otherwise. */
  function Or(a: JsValue, b: JsValue): (r: JsValue)
    ensures r == a || r == b
    ensures Truthy(r) <==> Truthy(a) || Truthy(b)
  {
    if Truthy(a) then a else b
  }

  /**
   * `v.key` on a value that is not nullish. The names the handlers read are
   * not inherited members of any prototype, so only an object's own
   * properties are found and every other value yields `undefined`.
   */
  function Prop(v: JsValue, key: string): JsValue
    requires !Nullish(v)
  {
    if v.Obj? && key in v.props then v.props[key] else Undefined
  }

  /** `v.key`: a TypeError on `null` and `undefined`. */
  function Get(v: JsValue, key: string): (r: Result<JsValue>)
    ensures r.TypeError? <==> Nullish(v)
    ensures r.Ok? ==> r.value == OptGet(v, key)
  {
    if Nullish(v) then TypeError else Ok(Prop(v, key))
  }

  /** `v?.key`: never throws; `undefined` on `null` and `undefined`. */
  function OptGet(v: JsValue, key: string): (r: JsValue)
    ensures r != Undefined ==> v.Obj? && key in v.props && r == v.props[key]
    ensures v.Obj? && key in v.props ==> r == v.props[key]
  {
    if Nullish(v) then Undefined else Prop(v, key)
  }

  /**
   * Whether a template literal can print `v`: ToString calls an object's
   * `toString`, and an own `toString` property of a parsed object is not
   * callable (nor is `valueOf` giving a primitive), so ToString throws a
   * TypeError; an array prints by joining its items, so it throws when one
   * of them does. Every other value prints.
   */
  predicate Printable(v: JsValue)
    ensures !v.Obj? && !v.Arr? ==> Printable(v)
    ensures v.Obj? ==> (Printable(v) <==> "toString" !in v.props)
    ensures v.Arr? ==> (Printable(v) <==> forall i :: 0 <= i < |v.items| ==> Printable(v.items[i]))
    decreases v
  {
    match v
    case Obj(props) => "toString" !in props
    case Arr(items) => forall i :: 0 <= i < |items| ==> Printable(items[i])
    case _ => true
  }
}

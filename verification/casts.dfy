/**
 * The interpreter's static helpers that inspect a value: its type name,
 * truthiness, and the casts the operators and built-ins apply to their
 * operands. A failed cast reports the expected type and the offending value.
 */
module Casts {
  import opened Options
  import opened Values
  import opened Errors

  const IntMin: int := -0x8000_0000
  const IntMax: int := 0x7FFF_FFFF

  /**
   * `typeName`. The shown matcher has no array case, so an array has no
   * type name here.
   */
  function TypeName(v: Value): (r: Option<string>)
    ensures r.None? <==> v.Array?
  {
    match v
    case Null => Some("null")
    case Boolean(_) => Some("boolean")
    case Number(_) => Some("number")
    case Function(_) => Some("function")
    case Id(_) => Some("id")
    case Box(_) => Some("box")
    case Array(_) => None
  }

  /** `isTruthy`: exactly null and false are falsy. */
  function Truthy(v: Value): (r: bool)
    ensures !r <==> v == Null || v == Boolean(false)
  {
    match v
    case Null => false
    case Boolean(b) => b
    case _ => true
  }

  /** `castToNumber` */
  function CastToNumber(v: Value): (r: Result<real>)
    ensures r.Success? <==> v.Number?
    ensures r.Success? ==> Number(r.value) == v
    ensures r.Failure? ==> r.error == CastException("number", v)
  {
    match v
    case Number(n) => Success(n)
    case _ => Failure(CastException("number", v))
  }

  /** `castToFunction` */
  function CastToFunction(v: Value): (r: Result<FunctionRef>)
    ensures r.Success? <==> v.Function?
    ensures r.Success? ==> Function(r.value) == v
    ensures r.Failure? ==> r.error == CastException("function", v)
  {
    match v
    case Function(f) => Success(f)
    case _ => Failure(CastException("function", v))
  }

  /** `castToBox`: yields the box's address. */
  function CastToBox(v: Value): (r: Result<nat>)
    ensures r.Success? <==> v.Box?
    ensures r.Success? ==> Box(r.value) == v
    ensures r.Failure? ==> r.error == CastException("box", v)
  {
    match v
    case Box(c) => Success(c)
    case _ => Failure(CastException("box", v))
  }

  /** `castToArray`: yields the array's address. */
  function CastToArray(v: Value): (r: Result<nat>)
    ensures r.Success? <==> v.Array?
    ensures r.Success? ==> Array(r.value) == v
    ensures r.Failure? ==> r.error == CastException("array", v)
  {
    match v
    case Array(c) => Success(c)
    case _ => Failure(CastException("array", v))
  }

  predicate IsJavaInt(n: real)
  {
    n == n.Floor as real && IntMin <= n.Floor <= IntMax
  }

  /**
   * `castToInt`: a number with no fractional part inside the range of a
   * 32-bit `int`; anything else numeric is an illegal argument.
   */
  function CastToInt(v: Value): (r: Result<int>)
    ensures r.Success? <==> v.Number? && IsJavaInt(v.n)
    ensures r.Success? ==> v == Number(r.value as real) && IntMin <= r.value <= IntMax
    ensures !v.Number? ==> r == Failure(CastException("number", v))
    ensures v.Number? && !IsJavaInt(v.n) ==> r == Failure(IllegalArgument(v.n))
  {
    var n :- CastToNumber(v);
    if IsJavaInt(n) then Success(n.Floor) else Failure(IllegalArgument(n))
  }

  /** Every `int` survives the trip through a number value and back. */
  lemma CastToIntRoundTrip(k: int)
    requires IntMin <= k <= IntMax
    ensures CastToInt(Number(k as real)) == Success(k)
  {
  }

  /** Distinct named types belong to distinct variants: the type name determines the variant. */
  lemma TypeNameDeterminesVariant(a: Value, b: Value)
    requires TypeName(a).Some? && TypeName(a) == TypeName(b)
    ensures a.Null? == b.Null? && a.Boolean? == b.Boolean? && a.Number? == b.Number?
    ensures a.Function? == b.Function? && a.Id? == b.Id? && a.Box? == b.Box?
  {
  }

}

/**
 * The dynamic value universe. Function, id, box and array values are
 * references: a function is a built-in singleton or the address of a closure,
 * a box or array is the address of its cell, and an id is the number drawn
 * from the id counter. Comparing two such values therefore compares
 * identities, which is what the source's wrappers do.
 */
module Values {

  /** The host built-ins (`print`, which writes to standard output, is not modelled). */
  datatype BuiltIn =
    | NewId
    | NewBox
    | BoxGet
    | BoxSet
    | NewArray
    | ArrayGet
    | ArraySet
    | ArrayLength

  /** What a function value refers to. */
  datatype FunctionRef =
    | BuiltInFunction(builtIn: BuiltIn)
    | CompoundFunction(address: nat)

  datatype Value =
    | Null
    | Boolean(b: bool)
    | Number(n: real)
    | Function(fn: FunctionRef)
    | Id(id: nat)
    | Box(box: nat)
    | Array(arr: nat)

  /** The source's interned null. */
  function MakeNull(): (r: Value)
    ensures r.Null?
  {
    Null
  }

  /** The source's two interned booleans. */
  function MakeBoolean(b: bool): (r: Value)
    ensures r.Boolean? && r.b == b
  {
    Boolean(b)
  }

  /**
   * `Value.equals`, variant by variant: null and the booleans are interned,
   * numbers compare with `Double.compare(n, m) == 0` (exact equality on the
   * reals of this model), and function, id, box and array wrappers compare
   * their payloads, which do not override `equals` and so compare by identity.
   */
  function ValueEquals(a: Value, b: Value): (r: bool)
    ensures r <==> a == b
  {
    match a
    case Null => b.Null?
    case Boolean(x) => b.Boolean? && b.b == x
    case Number(x) => b.Number? && b.n == x
    case Function(f) => b.Function? && b.fn == f
    case Id(i) => b.Id? && b.id == i
    case Box(c) => b.Box? && b.box == c
    case Array(c) => b.Array? && b.arr == c
  }

  /** Values of different variants are never equal. */
  lemma DifferentVariantsUnequal(a: Value, b: Value)
    requires a.Null? != b.Null? || a.Boolean? != b.Boolean? || a.Number? != b.Number?
             || a.Function? != b.Function? || a.Id? != b.Id? || a.Box? != b.Box?
    ensures !ValueEquals(a, b)
  {
  }

}

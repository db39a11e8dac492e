/**
 * The host built-ins: `id`, `box`, `boxGet`, `boxSet`, `array`,
 * `arrayGet`, `arraySet` and `arrayLength`. Each first checks its argument
 * count, then casts its arguments left to right, then touches the heap.
 */
module BuiltIns {
  import opened Values
  import opened Errors
  import opened Casts
  import opened AbstractFunctions
  import opened Heaps
  import Boxes
  import Arrays

  /** The argument count each built-in's adapter demands. */
  function Arity(b: BuiltIn): (n: nat)
    ensures n <= 3
    ensures n == 0 <==> b == NewId
    ensures n == 3 <==> b == ArraySet
  {
    match b
    case NewId => 0
    case NewBox | BoxGet | NewArray | ArrayLength => 1
    case BoxSet | ArrayGet => 2
    case ArraySet => 3
  }

  /**
   * Applies a built-in to evaluated arguments. On success the result and
   * the heap refer only to existing cells, nothing is freed and no frame
   * changes.
   */
  function ApplyBuiltIn(b: BuiltIn, args: seq<Value>, h: Heap): (r: Result<(Value, Heap)>)
    requires Valid(h) && AllOk(args, BoundsOf(h))
    ensures |args| != Arity(b) ==> r == Failure(ArityException(Arity(b), |args|))
    ensures r.Success? ==> Valid(r.value.1) && Grows(h, r.value.1) && Untouched(h, r.value.1, -1)
    ensures r.Success? ==> ValueOk(r.value.0, BoundsOf(r.value.1))
    ensures r.Success? ==> r.value.1.frames == h.frames && r.value.1.closures == h.closures
  {
    var _ :- CheckArity(Arity(b), args);
    assert forall i :: 0 <= i < |args| ==> ValueOk(args[i], BoundsOf(h));
    match b
    case NewId =>
      var (h', n) := DrawId(h);
      Success((Id(n), h'))
    case NewBox =>
      var (h', c) := PushBox(h, args[0]);
      Success((Box(c), h'))
    case BoxGet =>
      var c :- CastToBox(args[0]);
      assert ValueOk(h.boxes[c].contents, BoundsOf(h));
      Success((Boxes.Deref(h.boxes[c]), h))
    case BoxSet =>
      var c :- CastToBox(args[0]);
      Success((Null, SetBox(h, c, args[1])))
    case NewArray =>
      var n :- CastToInt(args[0]);
      if n < 0 then Failure(NegativeArraySize(n))
      else
        var (h', a) := PushArray(h, n);
        Success((Array(a), h'))
    case ArrayGet =>
      var a :- CastToArray(args[0]);
      var i :- CastToInt(args[1]);
      if 0 <= i < Arrays.GetLength(h.arrays[a]) then
        assert AllOk(h.arrays[a], BoundsOf(h));
        Success((Arrays.Subscript(h.arrays[a], i), h))
      else Failure(IndexOutOfBounds(i, Arrays.GetLength(h.arrays[a])))
    case ArraySet =>
      var a :- CastToArray(args[0]);
      var i :- CastToInt(args[1]);
      if 0 <= i < Arrays.GetLength(h.arrays[a]) then Success((Null, SetSlot(h, a, i, args[2])))
      else Failure(IndexOutOfBounds(i, Arrays.GetLength(h.arrays[a])))
    case ArrayLength =>
      var a :- CastToArray(args[0]);
      Success((Number(Arrays.GetLength(h.arrays[a]) as real), h))
  }

  /** `id` yields an id unequal to every id already in existence, and the next call yields yet another. */
  lemma IdsAreFresh(h: Heap, old_: Value)
    requires Valid(h) && ValueOk(old_, BoundsOf(h))
    ensures var r := ApplyBuiltIn(NewId, [], h);
            && r.Success? && r.value.0.Id? && r.value.0 != old_
            && var r2 := ApplyBuiltIn(NewId, [], r.value.1);
               r2.Success? && r2.value.0.Id? && r2.value.0 != r.value.0
  {
  }

  /** `boxGet(box(v))` is `v`, and a fresh box is distinct from every existing box. */
  lemma BoxThenGet(h: Heap, v: Value, other: Value)
    requires Valid(h) && ValueOk(v, BoundsOf(h)) && ValueOk(other, BoundsOf(h))
    ensures var r := ApplyBuiltIn(NewBox, [v], h);
            && r.Success? && r.value.0.Box? && r.value.0 != other
            && ApplyBuiltIn(BoxGet, [r.value.0], r.value.1) == Success((v, r.value.1))
  {
  }

  /**
   * After `boxSet(b, v)`, `boxGet(b)` is `v`, and every other box holds what
   * it held before.
   */
  lemma BoxSetThenGet(h: Heap, c: nat, v: Value, d: nat)
    requires Valid(h) && c < |h.boxes| && d < |h.boxes| && ValueOk(v, BoundsOf(h))
    ensures var r := ApplyBuiltIn(BoxSet, [Box(c), v], h);
            && r.Success? && r.value.0 == Null
            && ApplyBuiltIn(BoxGet, [Box(c)], r.value.1).value.0 == v
            && (d != c ==> ApplyBuiltIn(BoxGet, [Box(d)], r.value.1).value.0 == ApplyBuiltIn(BoxGet, [Box(d)], h).value.0)
  {
  }

  /** Box operations on a non-box fail with a cast error naming the box type. */
  lemma BoxOpsRejectNonBoxes(h: Heap, v: Value, w: Value)
    requires Valid(h) && ValueOk(v, BoundsOf(h)) && ValueOk(w, BoundsOf(h)) && !v.Box?
    ensures ApplyBuiltIn(BoxGet, [v], h) == Failure(CastException("box", v))
    ensures ApplyBuiltIn(BoxSet, [v, w], h) == Failure(CastException("box", v))
  {
  }

  /**
   * `array(n)` for an integral `0 <= n <= 2^31 - 1` yields a new array,
   * distinct from every existing value, whose `arrayLength` is `n` and whose
   * every slot reads as null.
   */
  lemma NewArrayIsNullFilled(h: Heap, n: nat, i: nat, other: Value)
    requires Valid(h) && n <= IntMax && ValueOk(other, BoundsOf(h))
    ensures var r := ApplyBuiltIn(NewArray, [Number(n as real)], h);
            && r.Success? && r.value.0.Array? && r.value.0 != other
            && ApplyBuiltIn(ArrayLength, [r.value.0], r.value.1) == Success((Number(n as real), r.value.1))
            && (i < n ==> ApplyBuiltIn(ArrayGet, [r.value.0, Number(i as real)], r.value.1) == Success((Null, r.value.1)))
  {
    var r := ApplyBuiltIn(NewArray, [Number(n as real)], h);
    assert CastToInt(Number(n as real)) == Success(n);
    if i < n {
      assert CastToInt(Number(i as real)) == Success(i);
    }
  }

  /** A negative, fractional or out-of-range length is rejected. */
  lemma NewArrayRejectsBadLength(h: Heap, x: real)
    requires Valid(h)
    ensures x < 0.0 && IsJavaInt(x) ==> ApplyBuiltIn(NewArray, [Number(x)], h) == Failure(NegativeArraySize(x.Floor))
    ensures !IsJavaInt(x) ==> ApplyBuiltIn(NewArray, [Number(x)], h) == Failure(IllegalArgument(x))
  {
  }

  /**
   * After `arraySet(a, i, v)`, `arrayGet(a, i)` is `v`; every other slot and
   * the length are unchanged.
   */
  lemma ArraySetThenGet(h: Heap, a: nat, i: nat, v: Value, j: nat)
    requires Valid(h) && a < |h.arrays| && i < |h.arrays[a]| && j < |h.arrays[a]| && ValueOk(v, BoundsOf(h))
    ensures var r := ApplyBuiltIn(ArraySet, [Array(a), Number(i as real), v], h);
            && r.Success? && r.value.0 == Null
            && ApplyBuiltIn(ArrayGet, [Array(a), Number(i as real)], r.value.1).value.0 == v
            && ApplyBuiltIn(ArrayLength, [Array(a)], r.value.1).value.0 == ApplyBuiltIn(ArrayLength, [Array(a)], h).value.0
            && (j != i ==> ApplyBuiltIn(ArrayGet, [Array(a), Number(j as real)], r.value.1).value.0
                           == ApplyBuiltIn(ArrayGet, [Array(a), Number(j as real)], h).value.0)
  {
    assert CastToInt(Number(i as real)) == Success(i);
    assert CastToInt(Number(j as real)) == Success(j);
  }

  /** Reading or writing outside `0 <= i < length` is an index error. */
  lemma ArrayIndexChecked(h: Heap, a: nat, i: int, v: Value)
    requires Valid(h) && a < |h.arrays| && ValueOk(v, BoundsOf(h))
    requires IntMin <= i <= IntMax && !(0 <= i < |h.arrays[a]|)
    ensures ApplyBuiltIn(ArrayGet, [Array(a), Number(i as real)], h) == Failure(IndexOutOfBounds(i, |h.arrays[a]|))
    ensures ApplyBuiltIn(ArraySet, [Array(a), Number(i as real), v], h) == Failure(IndexOutOfBounds(i, |h.arrays[a]|))
  {
    assert CastToInt(Number(i as real)) == Success(i);
  }

}

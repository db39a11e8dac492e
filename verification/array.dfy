/**
 * A fixed-length sequence of values, every slot null at creation. Its
 * identity is its address in the heap. Indices are the caller's
 * responsibility here; the built-ins check them.
 */
module Arrays {
  import V = Values

  type Array = seq<V.Value>

  /** `new Array(n)`: `n` slots, all null. */
  function New(n: nat): (a: Array)
    ensures GetLength(a) == n
    ensures forall i :: 0 <= i < n ==> Subscript(a, i) == V.Null
  {
    seq(n, _ => V.Null)
  }

  /** `subscript(i)` */
  function Subscript(a: Array, i: nat): V.Value
    requires i < |a|
  {
    a[i]
  }

  /** `assignSubscript(i, v)`: slot `i` holds `v`; the length and every other slot are unchanged. */
  function AssignSubscript(a: Array, i: nat, v: V.Value): (a': Array)
    requires i < |a|
    ensures GetLength(a') == GetLength(a)
    ensures Subscript(a', i) == v
    ensures forall j :: 0 <= j < |a| && j != i ==> Subscript(a', j) == Subscript(a, j)
  {
    a[i := v]
  }

  /** `getLength()` */
  function GetLength(a: Array): nat
  {
    |a|
  }

  /** Writing back the value a slot already holds changes nothing. */
  lemma AssignSubscriptOwnValueIsNoOp(a: Array, i: nat)
    requires i < GetLength(a)
    ensures AssignSubscript(a, i, Subscript(a, i)) == a
  {
  }

  /**
   * An array is all that `getLength` and `subscript` observe: two arrays of
   * the same length that agree at every index are the same.
   */
  lemma {:induction false} ObservationsDetermineArray(a: Array, b: Array)
    requires GetLength(a) == GetLength(b)
    requires forall i: nat :: i < GetLength(a) ==> Subscript(a, i) == Subscript(b, i)
    ensures a == b
  {
    assert forall i :: 0 <= i < |a| ==> a[i] == Subscript(a, i);
  }

}

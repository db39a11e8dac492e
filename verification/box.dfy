/** A mutable single-value cell. Its identity is its address in the heap. */
module Boxes {
  import V = Values

  datatype Box = Box(contents: V.Value)

  /** `new Box(init)` */
  function New(init: V.Value): (b: Box)
    ensures Deref(b) == init
  {
    Box(init)
  }

  /** `deref()` */
  function Deref(b: Box): V.Value
  {
    b.contents
  }

  /** `assign(v)`: after it, `deref()` returns `v`. */
  function Assign(b: Box, v: V.Value): (b': Box)
    ensures Deref(b') == v
  {
    Box(v)
  }

  /** Assigning a box the value it already holds changes nothing. */
  lemma AssignDerefIsNoOp(b: Box)
    ensures Assign(b, Deref(b)) == b
  {
  }

  /** A box is all its contents: two boxes that dereference alike are the same. */
  lemma DerefDeterminesBox(b: Box, c: Box)
    ensures Deref(b) == Deref(c) <==> b == c
  {
  }

  /** Only the last assignment is observable. */
  lemma AssignOverwrites(b: Box, v1: V.Value, v2: V.Value)
    ensures Assign(Assign(b, v1), v2) == Assign(b, v2)
  {
  }

}

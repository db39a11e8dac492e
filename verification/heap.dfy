/**
 * The whole mutable runtime state: the frame arena of the store, the closures
 * function abstractions have created, the box and array cells, and the id
 * counter. Addresses into the closure, box and array tables are the
 * identities of the corresponding values.
 *
 * `Valid` is the invariant every operation keeps: parent links point down
 * the arena, closures capture existing frames, and every stored value refers
 * only to cells and ids that exist.
 */
module Heaps {
  import opened Options
  import opened Locations
  import opened Values
  import opened Errors
  import Ast
  import Stores
  import Boxes
  import Arrays
  import Casts

  /** A compound function: optional self location, parameters, body, captured frame. */
  datatype Closure = Closure(
    self: Option<ValueLocation>,
    parameters: seq<ValueLocation>,
    body: seq<Ast.Statement>,
    frame: nat)

  datatype Heap = Heap(
    frames: seq<Stores.Frame>,
    closures: seq<Closure>,
    boxes: seq<Boxes.Box>,
    arrays: seq<Arrays.Array>,
    nextId: nat)

  /** The table sizes a value's references are checked against. */
  datatype Bounds = Bounds(closures: nat, boxes: nat, arrays: nat, ids: nat)

  function BoundsOf(h: Heap): Bounds
  {
    Bounds(|h.closures|, |h.boxes|, |h.arrays|, h.nextId)
  }

  predicate Within(b: Bounds, b': Bounds)
  {
    b.closures <= b'.closures && b.boxes <= b'.boxes && b.arrays <= b'.arrays && b.ids <= b'.ids
  }

  /** Every reference inside `v` names an existing closure, box, array or id. */
  predicate ValueOk(v: Value, b: Bounds)
  {
    match v
    case Function(f) => f.CompoundFunction? ==> f.address < b.closures
    case Id(n) => n < b.ids
    case Box(c) => c < b.boxes
    case Array(c) => c < b.arrays
    case _ => true
  }

  predicate AllOk(vs: seq<Value>, b: Bounds)
  {
    forall i :: 0 <= i < |vs| ==> ValueOk(vs[i], b)
  }

  ghost predicate FrameOk(f: Stores.Frame, i: nat, b: Bounds)
  {
    && (f.parent.Some? ==> f.parent.value < i)
    && (forall l :: l in f.vals ==> ValueOk(f.vals[l], b))
    && (forall l :: l in f.vars ==> ValueOk(f.vars[l], b))
  }

  ghost predicate FramesOk(frames: seq<Stores.Frame>, b: Bounds)
  {
    forall i :: 0 <= i < |frames| ==> FrameOk(frames[i], i, b)
  }

  ghost predicate ClosuresOk(closures: seq<Closure>, frameCount: nat)
  {
    forall i :: 0 <= i < |closures| ==> closures[i].frame < frameCount
  }

  ghost predicate BoxesOk(boxes: seq<Boxes.Box>, b: Bounds)
  {
    forall i :: 0 <= i < |boxes| ==> ValueOk(boxes[i].contents, b)
  }

  /** Array slots refer to existing cells; a length is a Java `int`. */
  ghost predicate ArraysOk(arrays: seq<Arrays.Array>, b: Bounds)
  {
    forall i :: 0 <= i < |arrays| ==> AllOk(arrays[i], b) && |arrays[i]| <= Casts.IntMax
  }

  ghost predicate Valid(h: Heap)
  {
    && FramesOk(h.frames, BoundsOf(h))
    && ClosuresOk(h.closures, |h.frames|)
    && BoxesOk(h.boxes, BoundsOf(h))
    && ArraysOk(h.arrays, BoundsOf(h))
  }

  /**
   * Nothing is ever deallocated: tables and counters only grow, and a
   * closure, once created, never changes.
   */
  ghost predicate Grows(h: Heap, h': Heap)
  {
    |h.frames| <= |h'.frames| && Within(BoundsOf(h), BoundsOf(h')) && h.closures <= h'.closures
  }

  /** Every frame that existed in `h`, other than `cur`, is unchanged in `h'`. */
  ghost predicate Untouched(h: Heap, h': Heap, cur: int)
  {
    && |h.frames| <= |h'.frames|
    && forall i :: 0 <= i < |h.frames| && i != cur ==> h'.frames[i] == h.frames[i]
  }

  lemma ValidFramesWellFormed(h: Heap)
    requires Valid(h)
    ensures Stores.WellFormed(h.frames)
  {
    forall i | 0 <= i < |h.frames| && h.frames[i].parent.Some?
      ensures h.frames[i].parent.value < i
    {
      assert FrameOk(h.frames[i], i, BoundsOf(h));
    }
  }

  /** Growing the bounds keeps every stored reference in range. */
  lemma OkUnderGrowth(h: Heap, b: Bounds)
    requires FramesOk(h.frames, BoundsOf(h)) && BoxesOk(h.boxes, BoundsOf(h)) && ArraysOk(h.arrays, BoundsOf(h))
    requires Within(BoundsOf(h), b)
    ensures FramesOk(h.frames, b) && BoxesOk(h.boxes, b) && ArraysOk(h.arrays, b)
  {
    forall i | 0 <= i < |h.frames|
      ensures FrameOk(h.frames[i], i, b)
    {
      assert FrameOk(h.frames[i], i, BoundsOf(h));
    }
    forall i | 0 <= i < |h.arrays|
      ensures AllOk(h.arrays[i], b) && |h.arrays[i]| <= Casts.IntMax
    {
      assert AllOk(h.arrays[i], BoundsOf(h));
    }
  }

  /** The state a program starts in: one empty top-level frame. */
  function Initial(): (h: Heap)
    ensures Valid(h) && |h.frames| == 1 && h.frames[0] == Stores.EmptyFrame(None)
  {
    Heap([Stores.EmptyFrame(None)], [], [], [], 0)
  }

  /** `new Store(parent)`: appends an empty frame and returns its index. */
  function PushFrame(h: Heap, parent: nat): (r: (Heap, nat))
    requires Valid(h) && parent < |h.frames|
    ensures Valid(r.0) && Grows(h, r.0) && Untouched(h, r.0, -1)
    ensures r.1 == |h.frames| && |r.0.frames| == |h.frames| + 1
    ensures r.0.frames[r.1] == Stores.EmptyFrame(Some(parent))
    ensures BoundsOf(r.0) == BoundsOf(h) && r.0.closures == h.closures
  {
    var h' := h.(frames := h.frames + [Stores.EmptyFrame(Some(parent))]);
    assert FramesOk(h'.frames, BoundsOf(h')) by {
      forall i | 0 <= i < |h'.frames|
        ensures FrameOk(h'.frames[i], i, BoundsOf(h'))
      {
        if i < |h.frames| { assert FrameOk(h.frames[i], i, BoundsOf(h)); }
      }
    }
    (h', |h.frames|)
  }

  /** `Store.defineValue` on frame `cur`. */
  function DefineValue(h: Heap, cur: nat, loc: ValueLocation, v: Value): (r: Result<Heap>)
    requires Valid(h) && cur < |h.frames| && ValueOk(v, BoundsOf(h))
    ensures r.Failure? <==> loc in h.frames[cur].vals
    ensures r.Failure? ==> r.error == ValueAlreadyDefined(loc)
    ensures r.Success? ==> r.value == h.(frames := Stores.DefineValue(h.frames, cur, loc, v).value)
    ensures r.Success? ==> Valid(r.value) && Grows(h, r.value) && Untouched(h, r.value, cur)
    ensures r.Success? ==> |r.value.frames| == |h.frames| && BoundsOf(r.value) == BoundsOf(h)
  {
    var frames :- Stores.DefineValue(h.frames, cur, loc, v);
    var h' := h.(frames := frames);
    assert FramesOk(frames, BoundsOf(h')) by {
      forall i | 0 <= i < |frames|
        ensures FrameOk(frames[i], i, BoundsOf(h'))
      {
        assert FrameOk(h.frames[i], i, BoundsOf(h));
      }
    }
    Success(h')
  }

  /** `Store.assignVariable` on frame `cur`. */
  function AssignVariable(h: Heap, cur: nat, loc: VariableLocation, v: Value): (h': Heap)
    requires Valid(h) && cur < |h.frames| && ValueOk(v, BoundsOf(h))
    ensures h' == h.(frames := Stores.AssignVariable(h.frames, cur, loc, v))
    ensures Valid(h') && Grows(h, h') && Untouched(h, h', cur)
    ensures |h'.frames| == |h.frames| && BoundsOf(h') == BoundsOf(h)
  {
    var frames := Stores.AssignVariable(h.frames, cur, loc, v);
    var h' := h.(frames := frames);
    assert FramesOk(frames, BoundsOf(h')) by {
      forall i | 0 <= i < |frames|
        ensures FrameOk(frames[i], i, BoundsOf(h'))
      {
        assert FrameOk(h.frames[i], i, BoundsOf(h));
      }
    }
    h'
  }

  /** Records a new closure; its address is the next free one. */
  function PushClosure(h: Heap, c: Closure): (r: (Heap, nat))
    requires Valid(h) && c.frame < |h.frames|
    ensures Valid(r.0) && Grows(h, r.0) && Untouched(h, r.0, -1)
    ensures r.1 == |h.closures| && r.0.closures == h.closures + [c]
    ensures r.0.frames == h.frames && r.0.boxes == h.boxes && r.0.arrays == h.arrays && r.0.nextId == h.nextId
  {
    var h' := h.(closures := h.closures + [c]);
    OkUnderGrowth(h, BoundsOf(h'));
    (h', |h.closures|)
  }

  /** `new Box(init)`: allocates the next box address. */
  function PushBox(h: Heap, init: Value): (r: (Heap, nat))
    requires Valid(h) && ValueOk(init, BoundsOf(h))
    ensures Valid(r.0) && Grows(h, r.0) && Untouched(h, r.0, -1)
    ensures r.1 == |h.boxes| && r.0.boxes == h.boxes + [Boxes.New(init)]
    ensures r.0.frames == h.frames && r.0.closures == h.closures && r.0.arrays == h.arrays && r.0.nextId == h.nextId
  {
    var h' := h.(boxes := h.boxes + [Boxes.New(init)]);
    OkUnderGrowth(h, BoundsOf(h'));
    (h', |h.boxes|)
  }

  /** `Box.assign` on the box at address `b`. */
  function SetBox(h: Heap, b: nat, v: Value): (h': Heap)
    requires Valid(h) && b < |h.boxes| && ValueOk(v, BoundsOf(h))
    ensures Valid(h') && Grows(h, h') && Untouched(h, h', -1) && BoundsOf(h') == BoundsOf(h)
    ensures h' == h.(boxes := h.boxes[b := Boxes.Assign(h.boxes[b], v)])
  {
    h.(boxes := h.boxes[b := Boxes.Assign(h.boxes[b], v)])
  }

  /** `new Array(n)`: allocates the next array address. */
  function PushArray(h: Heap, n: nat): (r: (Heap, nat))
    requires Valid(h) && n <= Casts.IntMax
    ensures Valid(r.0) && Grows(h, r.0) && Untouched(h, r.0, -1)
    ensures r.1 == |h.arrays| && r.0.arrays == h.arrays + [Arrays.New(n)]
    ensures r.0.frames == h.frames && r.0.closures == h.closures && r.0.boxes == h.boxes && r.0.nextId == h.nextId
  {
    var h' := h.(arrays := h.arrays + [Arrays.New(n)]);
    OkUnderGrowth(h, BoundsOf(h'));
    (h', |h.arrays|)
  }

  /** `Array.assignSubscript` on the array at address `a`. */
  function SetSlot(h: Heap, a: nat, i: nat, v: Value): (h': Heap)
    requires Valid(h) && a < |h.arrays| && i < |h.arrays[a]| && ValueOk(v, BoundsOf(h))
    ensures Valid(h') && Grows(h, h') && Untouched(h, h', -1) && BoundsOf(h') == BoundsOf(h)
    ensures h' == h.(arrays := h.arrays[a := Arrays.AssignSubscript(h.arrays[a], i, v)])
  {
    var h' := h.(arrays := h.arrays[a := Arrays.AssignSubscript(h.arrays[a], i, v)]);
    assert AllOk(h.arrays[a], BoundsOf(h));
    h'
  }

  /** `new Id()`: draws the counter and advances it. */
  function DrawId(h: Heap): (r: (Heap, nat))
    requires Valid(h)
    ensures Valid(r.0) && Grows(h, r.0) && Untouched(h, r.0, -1)
    ensures r.1 == h.nextId && r.0.nextId == h.nextId + 1
    ensures r.0.frames == h.frames && r.0.closures == h.closures && r.0.boxes == h.boxes && r.0.arrays == h.arrays
  {
    var h' := h.(nextId := h.nextId + 1);
    OkUnderGrowth(h, BoundsOf(h'));
    (h', h.nextId)
  }

  /** A value found by `lookupValue` refers only to existing cells. */
  lemma {:induction false} LookupValueOk(h: Heap, cur: nat, loc: ValueLocation)
    requires Valid(h) && cur < |h.frames|
    ensures Stores.WellFormed(h.frames)
    ensures Stores.LookupValue(h.frames, cur, loc).Success? ==>
              ValueOk(Stores.LookupValue(h.frames, cur, loc).value, BoundsOf(h))
    decreases cur
  {
    ValidFramesWellFormed(h);
    assert FrameOk(h.frames[cur], cur, BoundsOf(h));
    if loc !in h.frames[cur].vals && h.frames[cur].parent.Some? {
      LookupValueOk(h, h.frames[cur].parent.value, loc);
    }
  }

  /** A value found by `lookupVariable` refers only to existing cells. */
  lemma LookupVariableOk(h: Heap, cur: nat, loc: VariableLocation)
    requires Valid(h) && cur < |h.frames|
    ensures Stores.LookupVariable(h.frames, cur, loc).Success? ==>
              ValueOk(Stores.LookupVariable(h.frames, cur, loc).value, BoundsOf(h))
  {
    assert FrameOk(h.frames[cur], cur, BoundsOf(h));
  }

}

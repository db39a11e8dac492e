/**
 * The runtime store as an arena of frames. A frame owns a value map and a
 * variable map and names its parent frame by index; a `Store` of the source
 * is a frame index here. Parents always sit at smaller indices, so every
 * parent chain ends.
 */
module Stores {
  import opened Options
  import opened Locations
  import opened Values
  import opened Errors

  datatype Frame = Frame(
    vals: map<ValueLocation, Value>,
    vars: map<VariableLocation, Value>,
    parent: Option<nat>)

  /** `new Store(parent)`: a frame with empty maps. */
  function EmptyFrame(parent: Option<nat>): (f: Frame)
    ensures f.vals == map[] && f.vars == map[] && f.parent == parent
  {
    Frame(map[], map[], parent)
  }

  /** Every parent link points strictly below its own frame. */
  ghost predicate WellFormed(frames: seq<Frame>)
  {
    forall i :: 0 <= i < |frames| && frames[i].parent.Some? ==> frames[i].parent.value < i
  }

  /** The frames `lookupValue` visits from `cur`, nearest first. */
  ghost function Ancestors(frames: seq<Frame>, cur: nat): (chain: seq<nat>)
    requires WellFormed(frames) && cur < |frames|
    ensures |chain| >= 1 && chain[0] == cur
    ensures forall k :: 0 <= k < |chain| ==> chain[k] < |frames|
    decreases cur
  {
    match frames[cur].parent
    case None => [cur]
    case Some(p) => [cur] + Ancestors(frames, p)
  }

  /** Walks the parent chain from `cur` and returns the first binding of `loc`. */
  function LookupValue(frames: seq<Frame>, cur: nat, loc: ValueLocation): (r: Result<Value>)
    requires WellFormed(frames) && cur < |frames|
    ensures r.Failure? ==> r.error == ValueNotFound(loc)
    decreases cur
  {
    if loc in frames[cur].vals then Success(frames[cur].vals[loc])
    else
      match frames[cur].parent
      case None => Failure(ValueNotFound(loc))
      case Some(p) => LookupValue(frames, p, loc)
  }

  /** Binds `loc` in frame `cur` only; fails if that frame already binds it. */
  function DefineValue(frames: seq<Frame>, cur: nat, loc: ValueLocation, v: Value): (r: Result<seq<Frame>>)
    requires cur < |frames|
    ensures r.Failure? <==> loc in frames[cur].vals
    ensures r.Failure? ==> r.error == ValueAlreadyDefined(loc)
    ensures r.Success? ==> |r.value| == |frames|
    ensures r.Success? ==> forall i :: 0 <= i < |frames| && i != cur ==> r.value[i] == frames[i]
    ensures r.Success? ==> r.value[cur].vals == frames[cur].vals[loc := v]
    ensures r.Success? ==> r.value[cur].vars == frames[cur].vars
    ensures r.Success? ==> r.value[cur].parent == frames[cur].parent
  {
    if loc in frames[cur].vals then Failure(ValueAlreadyDefined(loc))
    else Success(frames[cur := frames[cur].(vals := frames[cur].vals[loc := v])])
  }

  /** Reads `loc` from frame `cur` only, never from a parent. */
  function LookupVariable(frames: seq<Frame>, cur: nat, loc: VariableLocation): (r: Result<Value>)
    requires cur < |frames|
    ensures r.Success? <==> loc in frames[cur].vars
    ensures r.Success? ==> r.value == frames[cur].vars[loc]
    ensures r.Failure? ==> r.error == VariableNotFound(loc)
  {
    if loc in frames[cur].vars then Success(frames[cur].vars[loc])
    else Failure(VariableNotFound(loc))
  }

  /** Inserts or overwrites `loc` in frame `cur`; never fails. */
  function AssignVariable(frames: seq<Frame>, cur: nat, loc: VariableLocation, v: Value): (r: seq<Frame>)
    requires cur < |frames|
    ensures |r| == |frames|
    ensures forall i :: 0 <= i < |frames| && i != cur ==> r[i] == frames[i]
    ensures r[cur].vars == frames[cur].vars[loc := v]
    ensures r[cur].vals == frames[cur].vals
    ensures r[cur].parent == frames[cur].parent
  {
    frames[cur := frames[cur].(vars := frames[cur].vars[loc := v])]
  }

  /**
   * `lookupValue` returns the binding of the nearest frame on the parent
   * chain that defines `loc`, and fails exactly when no frame on the chain
   * defines it.
   */
  lemma {:induction false} LookupValueNearest(frames: seq<Frame>, cur: nat, loc: ValueLocation)
    requires WellFormed(frames) && cur < |frames|
    ensures LookupValue(frames, cur, loc).Failure? ==>
              forall k :: 0 <= k < |Ancestors(frames, cur)| ==> loc !in frames[Ancestors(frames, cur)[k]].vals
    ensures LookupValue(frames, cur, loc).Success? ==>
              exists j :: 0 <= j < |Ancestors(frames, cur)| && NearestDefining(frames, Ancestors(frames, cur), j, loc)
                          && LookupValue(frames, cur, loc).value == frames[Ancestors(frames, cur)[j]].vals[loc]
    decreases cur
  {
    var chain := Ancestors(frames, cur);
    var r := LookupValue(frames, cur, loc);
    if loc in frames[cur].vals {
      assert NearestDefining(frames, chain, 0, loc);
    } else {
      match frames[cur].parent
      case None =>
        assert chain == [cur];
      case Some(p) =>
        LookupValueNearest(frames, p, loc);
        var rest := Ancestors(frames, p);
        assert chain == [cur] + rest;
        assert r == LookupValue(frames, p, loc);
        if r.Success? {
          var j :| 0 <= j < |rest| && NearestDefining(frames, rest, j, loc)
                   && r.value == frames[rest[j]].vals[loc];
          assert chain[j + 1] == rest[j];
          forall k | 0 <= k < j + 1
            ensures loc !in frames[chain[k]].vals
          {
            if k > 0 { assert chain[k] == rest[k - 1]; }
          }
          assert NearestDefining(frames, chain, j + 1, loc);
        } else {
          forall k | 0 <= k < |chain|
            ensures loc !in frames[chain[k]].vals
          {
            if k > 0 {
              assert chain[k] == rest[k - 1];
            }
          }
        }
    }
  }

  /** Frame `chain[j]` binds `loc` and no frame before it on the chain does. */
  ghost predicate NearestDefining(frames: seq<Frame>, chain: seq<nat>, j: nat, loc: ValueLocation)
    requires j < |chain| && forall k :: 0 <= k < |chain| ==> chain[k] < |frames|
  {
    && loc in frames[chain[j]].vals
    && forall k :: 0 <= k < j ==> loc !in frames[chain[k]].vals
  }

  /** Lookup fails exactly when no frame on the parent chain binds the location. */
  lemma LookupValueFailsIffUnbound(frames: seq<Frame>, cur: nat, loc: ValueLocation)
    requires WellFormed(frames) && cur < |frames|
    ensures LookupValue(frames, cur, loc).Failure? <==>
              forall k :: 0 <= k < |Ancestors(frames, cur)| ==> loc !in frames[Ancestors(frames, cur)[k]].vals
  {
    LookupValueNearest(frames, cur, loc);
  }

  /** A value defined in a frame is what a later lookup from that frame returns. */
  lemma DefineThenLookup(frames: seq<Frame>, cur: nat, loc: ValueLocation, v: Value)
    requires WellFormed(frames) && cur < |frames| && loc !in frames[cur].vals
    ensures WellFormed(DefineValue(frames, cur, loc, v).value)
    ensures LookupValue(DefineValue(frames, cur, loc, v).value, cur, loc) == Success(v)
  {
  }

  /**
   * Definition checks only the current frame: a child may define a location
   * its parent defines, after which the child sees its own binding and the
   * parent still sees the old one.
   */
  lemma ChildShadowsParent(frames: seq<Frame>, child: nat, loc: ValueLocation, v: Value)
    requires WellFormed(frames) && child < |frames|
    requires frames[child].parent.Some? && loc !in frames[child].vals
    ensures var p := frames[child].parent.value;
            var after := DefineValue(frames, child, loc, v);
            && after.Success?
            && LookupValue(after.value, child, loc) == Success(v)
            && LookupValue(after.value, p, loc) == LookupValue(frames, p, loc)
  {
    var p := frames[child].parent.value;
    var after := DefineValue(frames, child, loc, v).value;
    LookupUnaffectedAbove(frames, after, p, child, loc);
  }

  /** Frames below `changed` on the index order answer every lookup as before. */
  lemma {:induction false} LookupUnaffectedAbove(frames: seq<Frame>, frames': seq<Frame>, cur: nat, changed: nat, loc: ValueLocation)
    requires WellFormed(frames) && WellFormed(frames') && |frames'| == |frames|
    requires cur < changed < |frames|
    requires forall i :: 0 <= i < |frames| && i != changed ==> frames'[i] == frames[i]
    ensures LookupValue(frames', cur, loc) == LookupValue(frames, cur, loc)
    decreases cur
  {
    if loc !in frames[cur].vals && frames[cur].parent.Some? {
      LookupUnaffectedAbove(frames, frames', frames[cur].parent.value, changed, loc);
    }
  }

  /** The value and variable namespaces are independent: assigning a variable changes no value lookup. */
  lemma {:induction false} AssignKeepsValueLookups(frames: seq<Frame>, cur: nat, at: nat, x: VariableLocation, v: Value, loc: ValueLocation)
    requires WellFormed(frames) && cur < |frames| && at < |frames|
    ensures WellFormed(AssignVariable(frames, at, x, v))
    ensures LookupValue(AssignVariable(frames, at, x, v), cur, loc) == LookupValue(frames, cur, loc)
    decreases cur
  {
    var frames' := AssignVariable(frames, at, x, v);
    assert frames'[cur].vals == frames[cur].vals && frames'[cur].parent == frames[cur].parent;
    if loc !in frames[cur].vals && frames[cur].parent.Some? {
      AssignKeepsValueLookups(frames, frames[cur].parent.value, at, x, v, loc);
    }
  }

  /** Defining a value changes no variable lookup, in any frame. */
  lemma DefineKeepsVariableLookups(frames: seq<Frame>, cur: nat, at: nat, loc: ValueLocation, v: Value, x: VariableLocation)
    requires cur < |frames| && at < |frames| && loc !in frames[at].vals
    ensures LookupVariable(DefineValue(frames, at, loc, v).value, cur, x) == LookupVariable(frames, cur, x)
  {
  }

  /** The last assignment wins: assigning twice leaves the second value. */
  lemma AssignTwice(frames: seq<Frame>, cur: nat, x: VariableLocation, v1: Value, v2: Value)
    requires cur < |frames|
    ensures LookupVariable(AssignVariable(AssignVariable(frames, cur, x, v1), cur, x, v2), cur, x) == Success(v2)
  {
  }

  /** A variable held only by the parent frame is not found from the child. */
  lemma ParentVariableInvisible(frames: seq<Frame>, child: nat, x: VariableLocation)
    requires child < |frames| && frames[child].parent.Some? && frames[child].parent.value < |frames|
    requires x in frames[frames[child].parent.value].vars && x !in frames[child].vars
    ensures LookupVariable(frames, child, x) == Failure(VariableNotFound(x))
  {
  }

}

/**
 * The calling convention of compound functions: each call gets a fresh frame
 * whose parent is the frame the closure captured; the self name and the
 * parameters are bound there; the body's signal decides the result.
 */
module CallLaws {
  import opened Options
  import opened Locations
  import opened Values
  import opened Errors
  import opened Ast
  import CA = ControlActions
  import Stores
  import opened Heaps
  import opened Interpreter

  /** No location occurs twice in the list. */
  predicate Distinct(locs: seq<ValueLocation>)
  {
    forall i, j :: 0 <= i < j < |locs| ==> locs[i] != locs[j]
  }

  /** Lookups from an old frame see the same answer in any state that only appended frames. */
  lemma {:induction false} LookupInExtension(frames: seq<Stores.Frame>, frames': seq<Stores.Frame>, cur: nat, loc: ValueLocation)
    requires Stores.WellFormed(frames) && Stores.WellFormed(frames') && cur < |frames| <= |frames'|
    requires forall i :: 0 <= i < |frames| ==> frames'[i] == frames[i]
    ensures Stores.LookupValue(frames', cur, loc) == Stores.LookupValue(frames, cur, loc)
    decreases cur
  {
    if loc !in frames[cur].vals && frames[cur].parent.Some? {
      LookupInExtension(frames, frames', frames[cur].parent.value, loc);
    }
  }

  /**
   * Binding distinct, not yet bound parameters succeeds, binds each paired
   * parameter to its argument, keeps every earlier binding and binds nothing
   * else.
   */
  lemma {:induction false} BindPairsBinds(formals: seq<ValueLocation>, actuals: seq<Value>, nf: nat, h: Heap)
    requires Valid(h) && nf < |h.frames| && AllOk(actuals, BoundsOf(h))
    requires Distinct(formals)
    requires forall i :: 0 <= i < |formals| ==> formals[i] !in h.frames[nf].vals
    ensures var r := BindPairs(formals, actuals, nf, h);
            && r.Success?
            && r.value.frames[nf].parent == h.frames[nf].parent
            && (forall i :: 0 <= i < |formals| && i < |actuals| ==>
                  formals[i] in r.value.frames[nf].vals && r.value.frames[nf].vals[formals[i]] == actuals[i])
            && (forall l :: l in h.frames[nf].vals ==> l in r.value.frames[nf].vals && r.value.frames[nf].vals[l] == h.frames[nf].vals[l])
            && (forall l :: l !in h.frames[nf].vals && l !in formals ==> l !in r.value.frames[nf].vals)
    decreases |formals|
  {
    if formals != [] && actuals != [] {
      var h' := DefineValue(h, nf, formals[0], actuals[0]).value;
      assert AllOk(actuals[1..], BoundsOf(h'));
      forall i | 0 <= i < |formals[1..]|
        ensures formals[1..][i] !in h'.frames[nf].vals
      {
        assert formals[1..][i] == formals[i + 1];
      }
      BindPairsBinds(formals[1..], actuals[1..], nf, h');
      var r := BindPairs(formals[1..], actuals[1..], nf, h').value;
      forall i | 0 <= i < |formals| && i < |actuals|
        ensures formals[i] in r.frames[nf].vals && r.frames[nf].vals[formals[i]] == actuals[i]
      {
        if i > 0 {
          assert formals[1..][i - 1] == formals[i] && actuals[1..][i - 1] == actuals[i];
        }
      }
      forall l | l !in h.frames[nf].vals && l !in formals
        ensures l !in r.frames[nf].vals
      {
        assert l != formals[0];
        assert l !in formals[1..];
      }
    }
  }

  /** The closure's parameters are distinct and do not repeat its own name. */
  predicate WellBound(c: Closure)
  {
    Distinct(c.parameters) && (c.self.Some? ==> c.self.value !in c.parameters)
  }

  /**
   * The frame a call's body starts in holds exactly the self binding and
   * the parameters bound to the arguments, and every older frame is as it
   * was.
   */
  ghost predicate EntryState(addr: nat, args: seq<Value>, h: Heap, nf: nat, h3: Heap)
    requires Valid(h) && addr < |h.closures|
  {
    var c := h.closures[addr];
    && nf == |h.frames| && Valid(h3) && nf < |h3.frames|
    && (forall i :: 0 <= i < |h.frames| ==> h3.frames[i] == h.frames[i])
    && h3.frames[nf].parent == Some(c.frame)
    && (c.self.Some? ==> c.self.value in h3.frames[nf].vals
                         && h3.frames[nf].vals[c.self.value] == Function(CompoundFunction(addr)))
    && (forall i :: 0 <= i < |c.parameters| && i < |args| ==>
          c.parameters[i] in h3.frames[nf].vals && h3.frames[nf].vals[c.parameters[i]] == args[i])
    && (forall l :: l !in c.parameters && Some(l) != c.self ==> l !in h3.frames[nf].vals)
  }

  /** With matching arity, entering a call succeeds and sets up the entry state. */
  lemma EnterCallBinds(addr: nat, args: seq<Value>, h: Heap)
    requires Valid(h) && addr < |h.closures| && AllOk(args, BoundsOf(h))
    requires WellBound(h.closures[addr]) && |args| == |h.closures[addr].parameters|
    ensures var r := EnterCall(addr, args, h);
            r.Success? && EntryState(addr, args, h, r.value.0, r.value.1)
  {
    var c := h.closures[addr];
    var (h1, nf) := PushFrame(h, c.frame);
    var h2 := BindSelf(c.self, addr, nf, h1).value;
    BindPairsBinds(c.parameters, args, nf, h2);
  }

  /** A call with the wrong number of arguments fails with both counts, before the body runs. */
  lemma ArityMismatch(addr: nat, args: seq<Value>, h: Heap, fuel: nat)
    requires Valid(h) && addr < |h.closures| && AllOk(args, BoundsOf(h))
    requires WellBound(h.closures[addr]) && |args| != |h.closures[addr].parameters| && fuel > 0
    ensures ApplyCompound(addr, args, h, fuel)
            == Failure(ArityException(|h.closures[addr].parameters|, |args|))
  {
    var c := h.closures[addr];
    var (h1, nf) := PushFrame(h, c.frame);
    var h2 := BindSelf(c.self, addr, nf, h1).value;
    BindPairsBinds(c.parameters, args, nf, h2);
  }

  /** A body that returns parameter `i` makes the call yield argument `i`. */
  lemma ParameterIsArgument(addr: nat, args: seq<Value>, i: nat, h: Heap, fuel: nat)
    requires Valid(h) && addr < |h.closures| && AllOk(args, BoundsOf(h))
    requires WellBound(h.closures[addr]) && |args| == |h.closures[addr].parameters| && fuel > 0
    requires i < |args| && h.closures[addr].body == [Ast.Return(ValueLookup(h.closures[addr].parameters[i]))]
    ensures ApplyCompound(addr, args, h, fuel).Success?
    ensures ApplyCompound(addr, args, h, fuel).value.0 == args[i]
  {
    EnterCallBinds(addr, args, h);
    var entry := EnterCall(addr, args, h).value;
    var x := h.closures[addr].parameters[i];
    assert EvalExpr(ValueLookup(x), entry.0, entry.1, fuel - 1) == Success((args[i], entry.1));
    assert ExecStmt(Ast.Return(ValueLookup(x)), entry.0, entry.1, fuel - 1) == Success((CA.Return(args[i]), entry.1));
  }

  /** Inside a named function, its own name denotes the function itself. */
  lemma SelfIsTheFunction(addr: nat, args: seq<Value>, h: Heap, fuel: nat)
    requires Valid(h) && addr < |h.closures| && AllOk(args, BoundsOf(h))
    requires WellBound(h.closures[addr]) && |args| == |h.closures[addr].parameters| && fuel > 0
    requires h.closures[addr].self.Some?
    requires h.closures[addr].body == [Ast.Return(ValueLookup(h.closures[addr].self.value))]
    ensures ApplyCompound(addr, args, h, fuel).Success?
    ensures ApplyCompound(addr, args, h, fuel).value.0 == Function(CompoundFunction(addr))
  {
    EnterCallBinds(addr, args, h);
    var entry := EnterCall(addr, args, h).value;
    var s := h.closures[addr].self.value;
    var f := Function(CompoundFunction(addr));
    assert EvalExpr(ValueLookup(s), entry.0, entry.1, fuel - 1) == Success((f, entry.1));
    assert ExecStmt(Ast.Return(ValueLookup(s)), entry.0, entry.1, fuel - 1) == Success((CA.Return(f), entry.1));
  }

  /**
   * Scope is lexical: a name that is neither a parameter nor the self name
   * resolves through the frame the closure captured, whatever frame the
   * call was made from.
   */
  lemma FreeNamesResolveInCapturedFrame(addr: nat, args: seq<Value>, y: ValueLocation, h: Heap, fuel: nat)
    requires Valid(h) && addr < |h.closures| && AllOk(args, BoundsOf(h))
    requires WellBound(h.closures[addr]) && |args| == |h.closures[addr].parameters| && fuel > 0
    requires y !in h.closures[addr].parameters && h.closures[addr].self != Some(y)
    requires h.closures[addr].body == [Ast.Return(ValueLookup(y))]
    requires Stores.WellFormed(h.frames)
    ensures var found := Stores.LookupValue(h.frames, h.closures[addr].frame, y);
            var r := ApplyCompound(addr, args, h, fuel);
            && (found.Failure? ==> r == Failure(ValueNotFound(y)))
            && (found.Success? ==> r.Success? && r.value.0 == found.value)
  {
    EnterCallBinds(addr, args, h);
    var entry := EnterCall(addr, args, h).value;
    var nf, h3 := entry.0, entry.1;
    var p := h.closures[addr].frame;
    ValidFramesWellFormed(h3);
    assert y !in h3.frames[nf].vals;
    LookupInExtension(h.frames, h3.frames, p, y);
    var found := Stores.LookupValue(h.frames, p, y);
    assert Stores.LookupValue(h3.frames, nf, y) == found;
    LookupValueOk(h3, nf, y);
    if found.Success? {
      assert EvalExpr(ValueLookup(y), nf, h3, fuel - 1) == Success((found.value, h3));
      assert ExecStmt(Ast.Return(ValueLookup(y)), nf, h3, fuel - 1) == Success((CA.Return(found.value), h3));
    } else {
      assert EvalExpr(ValueLookup(y), nf, h3, fuel - 1) == Failure(ValueNotFound(y));
      assert ExecStmt(Ast.Return(ValueLookup(y)), nf, h3, fuel - 1) == Failure(ValueNotFound(y));
    }
  }

  /**
   * Whatever the body, once the call's frame is set up: a body that falls
   * off its end with `Next` makes the call yield null, with the heap the
   * body left behind.
   */
  lemma FallingOffYieldsNull(addr: nat, args: seq<Value>, h: Heap, fuel: nat)
    requires Valid(h) && addr < |h.closures| && AllOk(args, BoundsOf(h)) && fuel > 0
    requires EnterCall(addr, args, h).Success?
    ensures var entry := EnterCall(addr, args, h).value;
            var out := ExecStmts(h.closures[addr].body, entry.0, entry.1, fuel - 1);
            out.Success? && out.value.0 == CA.Next ==>
              ApplyCompound(addr, args, h, fuel) == Success((Null, out.value.1))
  {
  }

  /** A body that ends with `Return(v)` makes the call yield `v`. */
  lemma ReturnYieldsItsValue(addr: nat, args: seq<Value>, h: Heap, fuel: nat)
    requires Valid(h) && addr < |h.closures| && AllOk(args, BoundsOf(h)) && fuel > 0
    requires EnterCall(addr, args, h).Success?
    ensures var entry := EnterCall(addr, args, h).value;
            var out := ExecStmts(h.closures[addr].body, entry.0, entry.1, fuel - 1);
            out.Success? && out.value.0.Return? ==>
              ApplyCompound(addr, args, h, fuel) == Success((out.value.0.returned, out.value.1))
  {
  }

  /** A break escaping a function body, whichever loop it names, is fatal. */
  lemma BreakOutOfFunctionIsFatal(addr: nat, args: seq<Value>, h: Heap, fuel: nat)
    requires Valid(h) && addr < |h.closures| && AllOk(args, BoundsOf(h)) && fuel > 0
    requires EnterCall(addr, args, h).Success?
    ensures var entry := EnterCall(addr, args, h).value;
            var out := ExecStmts(h.closures[addr].body, entry.0, entry.1, fuel - 1);
            out.Success? && out.value.0.Break? ==>
              ApplyCompound(addr, args, h, fuel) == Failure(BreakAtFunctionTop(out.value.0.loop))
  {
  }

  /** A failure inside the body is the call's failure. */
  lemma BodyFailureIsCallFailure(addr: nat, args: seq<Value>, h: Heap, fuel: nat)
    requires Valid(h) && addr < |h.closures| && AllOk(args, BoundsOf(h)) && fuel > 0
    requires EnterCall(addr, args, h).Success?
    ensures var entry := EnterCall(addr, args, h).value;
            var out := ExecStmts(h.closures[addr].body, entry.0, entry.1, fuel - 1);
            out.Failure? ==> ApplyCompound(addr, args, h, fuel) == Failure(out.error)
  {
  }

  /**
   * Each call has its own frame: a body that defines a local can be called
   * again, since the second call does not see the first call's binding.
   */
  lemma LocalsAreFreshPerCall(addr: nat, x: ValueLocation, lit: Literal, h: Heap, fuel: nat)
    requires Valid(h) && addr < |h.closures| && fuel > 0
    requires h.closures[addr].self.None? && h.closures[addr].parameters == []
    requires h.closures[addr].body == [ValueDefinition(x, Constant(lit))]
    ensures var first := ApplyCompound(addr, [], h, fuel);
            && first.Success? && first.value.0 == Null
            && addr < |first.value.1.closures| && first.value.1.closures[addr] == h.closures[addr]
            && var second := ApplyCompound(addr, [], first.value.1, fuel);
               second.Success? && second.value.0 == Null
  {
    LocalsAreFreshOnce(addr, x, lit, h, fuel);
    var h' := ApplyCompound(addr, [], h, fuel).value.1;
    LocalsAreFreshOnce(addr, x, lit, h', fuel);
  }

  lemma LocalsAreFreshOnce(addr: nat, x: ValueLocation, lit: Literal, h: Heap, fuel: nat)
    requires Valid(h) && addr < |h.closures| && fuel > 0
    requires h.closures[addr].self.None? && h.closures[addr].parameters == []
    requires h.closures[addr].body == [ValueDefinition(x, Constant(lit))]
    ensures var r := ApplyCompound(addr, [], h, fuel);
            && r.Success? && r.value.0 == Null
            && addr < |r.value.1.closures| && r.value.1.closures[addr] == h.closures[addr]
  {
    EnterCallBinds(addr, [], h);
    var entry := EnterCall(addr, [], h).value;
    var nf, h3 := entry.0, entry.1;
    assert x !in h3.frames[nf].vals;
    assert EvalExpr(Constant(lit), nf, h3, fuel - 1) == Success((LiteralValue(lit), h3));
    var r := ExecStmt(ValueDefinition(x, Constant(lit)), nf, h3, fuel - 1);
    assert r.Success? && r.value.0 == CA.Next;
    assert ExecStmts([ValueDefinition(x, Constant(lit))], nf, h3, fuel - 1) == ExecStmts([], nf, r.value.1, fuel - 1);
  }

}

/**
 * The tree-walking evaluator. Expressions yield a value, statements yield a
 * control action, and both thread the heap through. A store of the source is
 * the index `cur` of a frame in the heap's arena.
 *
 * Loops and calls of compound functions may run forever in the source; here
 * each loop iteration and each compound call consumes one unit of `fuel`,
 * and running out is the model-only failure `OutOfFuel`.
 */
module Interpreter {
  import opened Options
  import opened Locations
  import opened Values
  import opened Errors
  import opened Ast
  import CA = ControlActions
  import Stores
  import opened Heaps
  import opened Casts
  import BuiltIns

  /** The value a literal constant denotes. */
  function LiteralValue(lit: Literal): (v: Value)
    ensures v.Null? <==> lit.NullLiteral?
    ensures v.Boolean? <==> lit.BooleanLiteral?
    ensures v.Number? <==> lit.NumberLiteral?
    ensures lit.BooleanLiteral? ==> v.b == lit.b
    ensures lit.NumberLiteral? ==> v.n == lit.n
  {
    match lit
    case NullLiteral => Null
    case BooleanLiteral(b) => Boolean(b)
    case NumberLiteral(n) => Number(n)
  }

  /**
   * The four arithmetic operators on numbers. Division by zero has no real
   * result; the model yields 0.0 there and states nothing about it.
   */
  function Arith(op: ArithmeticOperator, x: real, y: real): (r: real)
    ensures op == Addition ==> r - y == x
    ensures op == Subtraction ==> r + y == x
    ensures op == Multiplication && y != 0.0 ==> r / y == x
    ensures op == Division && y != 0.0 ==> r * y == x
  {
    match op
    case Addition => x + y
    case Subtraction => x - y
    case Multiplication => x * y
    case Division => if y == 0.0 then 0.0 else x / y
  }

  /** The four relational operators on numbers. */
  function Compare(op: RelationalOperator, x: real, y: real): (r: bool)
    ensures x == y ==> (r <==> op == GreaterEqual || op == LessEqual)
    ensures r && (op == Greater || op == GreaterEqual) ==> !(x < y)
    ensures r && (op == Less || op == LessEqual) ==> !(y < x)
  {
    match op
    case Greater => x > y
    case Less => x < y
    case GreaterEqual => x >= y
    case LessEqual => x <= y
  }

  /** A returned value refers only to existing cells. */
  predicate ActionOk(a: CA.ControlAction, b: Bounds)
  {
    a.Return? ==> ValueOk(a.returned, b)
  }

  function EvalExpr(e: Expression, cur: nat, h: Heap, fuel: nat): (r: Result<(Value, Heap)>)
    requires Valid(h) && cur < |h.frames|
    ensures r.Success? ==> Valid(r.value.1) && Grows(h, r.value.1) && Untouched(h, r.value.1, -1)
    ensures r.Success? ==> ValueOk(r.value.0, BoundsOf(r.value.1))
    decreases fuel, ExprSize(e), 0
  {
    match e
    case Constant(lit) =>
      Success((LiteralValue(lit), h))
    case ValueLookup(loc) =>
      LookupValueOk(h, cur, loc);
      var v :- Stores.LookupValue(h.frames, cur, loc);
      Success((v, h))
    case VariableLookup(loc) =>
      LookupVariableOk(h, cur, loc);
      var v :- Stores.LookupVariable(h.frames, cur, loc);
      Success((v, h))
    case ArithmeticOperation(op, left, right) =>
      var l :- EvalExpr(left, cur, h, fuel);
      var r :- EvalExpr(right, cur, l.1, fuel);
      var x :- CastToNumber(l.0);
      var y :- CastToNumber(r.0);
      Success((Number(Arith(op, x, y)), r.1))
    case EqualityOperation(op, left, right) =>
      var l :- EvalExpr(left, cur, h, fuel);
      var r :- EvalExpr(right, cur, l.1, fuel);
      var same := ValueEquals(l.0, r.0);
      Success((Boolean(if op == Equal then same else !same), r.1))
    case RelationalOperation(op, left, right) =>
      var l :- EvalExpr(left, cur, h, fuel);
      var r :- EvalExpr(right, cur, l.1, fuel);
      var x :- CastToNumber(l.0);
      var y :- CastToNumber(r.0);
      Success((Boolean(Compare(op, x, y)), r.1))
    case FunctionApplication(callee, arguments) =>
      var f :- EvalExpr(callee, cur, h, fuel);
      var fn :- CastToFunction(f.0);
      var args :- EvalArgs(arguments, cur, f.1, fuel);
      Apply(fn, args.0, args.1, fuel)
    case FunctionAbstraction(self, parameters, body) =>
      var (h', addr) := PushClosure(h, Closure(self, parameters, body, cur));
      Success((Function(CompoundFunction(addr)), h'))
  }

  /** Evaluates argument expressions left to right. */
  function EvalArgs(es: seq<Expression>, cur: nat, h: Heap, fuel: nat): (r: Result<(seq<Value>, Heap)>)
    requires Valid(h) && cur < |h.frames|
    ensures r.Success? ==> Valid(r.value.1) && Grows(h, r.value.1) && Untouched(h, r.value.1, -1)
    ensures r.Success? ==> |r.value.0| == |es| && AllOk(r.value.0, BoundsOf(r.value.1))
    decreases fuel, ExprsSize(es), 1
  {
    if es == [] then Success(([], h))
    else
      var first :- EvalExpr(es[0], cur, h, fuel);
      var rest :- EvalArgs(es[1..], cur, first.1, fuel);
      Success(([first.0] + rest.0, rest.1))
  }

  /** `Function.apply`: dispatches to a built-in or to a closure. */
  function Apply(fn: FunctionRef, args: seq<Value>, h: Heap, fuel: nat): (r: Result<(Value, Heap)>)
    requires Valid(h) && ValueOk(Function(fn), BoundsOf(h)) && AllOk(args, BoundsOf(h))
    ensures r.Success? ==> Valid(r.value.1) && Grows(h, r.value.1) && Untouched(h, r.value.1, -1)
    ensures r.Success? ==> ValueOk(r.value.0, BoundsOf(r.value.1))
    decreases fuel, 0, 1
  {
    match fn
    case BuiltInFunction(b) => BuiltIns.ApplyBuiltIn(b, args, h)
    case CompoundFunction(addr) => ApplyCompound(addr, args, h, fuel)
  }

  /** Binds a named function's own name, in its fresh frame, to the function itself. */
  function BindSelf(self: Option<ValueLocation>, addr: nat, nf: nat, h: Heap): (r: Result<Heap>)
    requires Valid(h) && nf < |h.frames| && addr < |h.closures|
    ensures r.Success? ==> Valid(r.value) && Grows(h, r.value) && Untouched(h, r.value, nf)
    ensures r.Success? ==> |r.value.frames| == |h.frames| && BoundsOf(r.value) == BoundsOf(h)
    ensures r.Success? ==> r.value.closures == h.closures && r.value.frames[nf].parent == h.frames[nf].parent
    ensures self.None? ==> r == Success(h)
    ensures r.Failure? ==> r.error == ValueAlreadyDefined(self.value)
  {
    match self
    case None => Success(h)
    case Some(loc) => DefineValue(h, nf, loc, Function(CompoundFunction(addr)))
  }

  /**
   * Binds formal to actual parameters pairwise in frame `nf`, as far as the
   * shorter list goes.
   */
  function BindPairs(formals: seq<ValueLocation>, actuals: seq<Value>, nf: nat, h: Heap): (r: Result<Heap>)
    requires Valid(h) && nf < |h.frames| && AllOk(actuals, BoundsOf(h))
    ensures r.Success? ==> Valid(r.value) && Grows(h, r.value) && Untouched(h, r.value, nf)
    ensures r.Success? ==> |r.value.frames| == |h.frames| && BoundsOf(r.value) == BoundsOf(h)
    ensures r.Success? ==> r.value.closures == h.closures && r.value.frames[nf].parent == h.frames[nf].parent
    ensures r.Failure? ==> r.error.ValueAlreadyDefined?
    decreases |formals|
  {
    if formals == [] || actuals == [] then Success(h)
    else
      var h' :- DefineValue(h, nf, formals[0], actuals[0]);
      BindPairs(formals[1..], actuals[1..], nf, h')
  }

  /**
   * The entry half of `CompoundFunction.apply`: a fresh frame whose parent
   * is the captured frame; the self name, then the parameters pairwise are
   * defined there; a count mismatch is an arity error. Yields the new
   * frame's index.
   */
  function EnterCall(addr: nat, args: seq<Value>, h: Heap): (r: Result<(nat, Heap)>)
    requires Valid(h) && addr < |h.closures| && AllOk(args, BoundsOf(h))
    ensures |args| != |h.closures[addr].parameters| ==> r.Failure?
    ensures r.Success? ==> Valid(r.value.1) && Grows(h, r.value.1) && Untouched(h, r.value.1, -1)
    ensures r.Success? ==> r.value.0 == |h.frames| < |r.value.1.frames|
    ensures r.Success? ==> r.value.1.frames[r.value.0].parent == Some(h.closures[addr].frame)
    ensures r.Success? ==> r.value.1.closures == h.closures
  {
    var c := h.closures[addr];
    var (h1, nf) := PushFrame(h, c.frame);
    var h2 :- BindSelf(c.self, addr, nf, h1);
    var h3 :- BindPairs(c.parameters, args, nf, h2);
    if |c.parameters| != |args| then Failure(ArityException(|c.parameters|, |args|))
    else Success((nf, h3))
  }

  /**
   * `CompoundFunction.apply`: the body runs in the frame `EnterCall` made;
   * its `Next` yields null, `Return(v)` yields `v`, and a break escaping the
   * body is fatal.
   */
  function ApplyCompound(addr: nat, args: seq<Value>, h: Heap, fuel: nat): (r: Result<(Value, Heap)>)
    requires Valid(h) && addr < |h.closures| && AllOk(args, BoundsOf(h))
    ensures r.Success? ==> Valid(r.value.1) && Grows(h, r.value.1) && Untouched(h, r.value.1, -1)
    ensures r.Success? ==> ValueOk(r.value.0, BoundsOf(r.value.1))
    decreases fuel, 0, 0
  {
    if fuel == 0 then Failure(OutOfFuel)
    else
      var entry :- EnterCall(addr, args, h);
      var out :- ExecStmts(h.closures[addr].body, entry.0, entry.1, fuel - 1);
      match out.0
      case Next => Success((Null, out.1))
      case Return(v) => Success((v, out.1))
      case Break(l) => Failure(BreakAtFunctionTop(l))
  }

  function ExecStmt(s: Statement, cur: nat, h: Heap, fuel: nat): (r: Result<(CA.ControlAction, Heap)>)
    requires Valid(h) && cur < |h.frames|
    ensures r.Success? ==> Valid(r.value.1) && Grows(h, r.value.1) && Untouched(h, r.value.1, cur)
    ensures r.Success? ==> ActionOk(r.value.0, BoundsOf(r.value.1))
    decreases fuel, StmtSize(s), 0
  {
    match s
    case ThrowawayExpression(e) =>
      var v :- EvalExpr(e, cur, h, fuel);
      Success((CA.Next, v.1))
    case ValueDefinition(loc, e) =>
      var v :- EvalExpr(e, cur, h, fuel);
      var h' :- DefineValue(v.1, cur, loc, v.0);
      Success((CA.Next, h'))
    case VariableAssignment(loc, e) =>
      var v :- EvalExpr(e, cur, h, fuel);
      Success((CA.Next, AssignVariable(v.1, cur, loc, v.0)))
    case Conditional(cond, thenStmts, elseStmts) =>
      var c :- EvalExpr(cond, cur, h, fuel);
      if Truthy(c.0) then ExecStmts(thenStmts, cur, c.1, fuel)
      else ExecStmts(elseStmts, cur, c.1, fuel)
    case Loop(loop, body) =>
      RunLoop(loop, body, cur, h, fuel)
    case Break(loop) =>
      Success((CA.Break(loop), h))
    case Return(e) =>
      var v :- EvalExpr(e, cur, h, fuel);
      Success((CA.Return(v.0), v.1))
  }

  /** `executeStatements`: runs statements in order until one signals an exit. */
  function ExecStmts(ss: seq<Statement>, cur: nat, h: Heap, fuel: nat): (r: Result<(CA.ControlAction, Heap)>)
    requires Valid(h) && cur < |h.frames|
    ensures r.Success? ==> Valid(r.value.1) && Grows(h, r.value.1) && Untouched(h, r.value.1, cur)
    ensures r.Success? ==> ActionOk(r.value.0, BoundsOf(r.value.1))
    decreases fuel, StmtsSize(ss), 1
  {
    if ss == [] then Success((CA.Next, h))
    else
      var first :- ExecStmt(ss[0], cur, h, fuel);
      if CA.ShouldExit(first.0) then Success(first)
      else ExecStmts(ss[1..], cur, first.1, fuel)
  }

  /**
   * `caseLoop`: repeats the body; a break of this loop ends it normally, any
   * other exit signal propagates.
   */
  function RunLoop(loop: LoopLabel, body: seq<Statement>, cur: nat, h: Heap, fuel: nat): (r: Result<(CA.ControlAction, Heap)>)
    requires Valid(h) && cur < |h.frames|
    ensures r.Success? ==> Valid(r.value.1) && Grows(h, r.value.1) && Untouched(h, r.value.1, cur)
    ensures r.Success? ==> ActionOk(r.value.0, BoundsOf(r.value.1))
    decreases fuel, StmtsSize(body) + 1, 0
  {
    if fuel == 0 then Failure(OutOfFuel)
    else
      var pass :- ExecStmts(body, cur, h, fuel - 1);
      var exited := CA.GetLoopLabel(pass.0);
      if exited.Some? && exited.value == loop then Success((CA.Next, pass.1))
      else if CA.ShouldExit(pass.0) then Success(pass)
      else RunLoop(loop, body, cur, pass.1, fuel - 1)
  }

  /** `executeTopLevel`: a break or return reaching the program's top level is fatal. */
  function ExecuteTopLevel(ss: seq<Statement>, cur: nat, h: Heap, fuel: nat): (r: Result<Heap>)
    requires Valid(h) && cur < |h.frames|
    ensures r.Success? ==> Valid(r.value) && Grows(h, r.value) && Untouched(h, r.value, cur)
  {
    var out :- ExecStmts(ss, cur, h, fuel);
    match out.0
    case Next => Success(out.1)
    case Break(l) => Failure(BreakAtTopLevel(l))
    case Return(v) => Failure(ReturnAtTopLevel(v))
  }

}

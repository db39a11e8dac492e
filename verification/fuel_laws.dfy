/**
 * Fuel only truncates: an evaluation that finishes, with a value or with an
 * error other than running out of fuel, finishes with the same outcome and
 * the same state under any larger budget. So the budget bounds how far the
 * model follows a program, never what the program does.
 */
module FuelLaws {
  import opened Locations
  import opened Values
  import opened Errors
  import opened Ast
  import CA = ControlActions
  import opened Heaps
  import opened Interpreter

  /** The outcome is not the budget running out. */
  predicate Settled<T>(r: Result<T>)
  {
    !(r.Failure? && r.error.OutOfFuel?)
  }

  lemma {:induction false} EvalExprFuel(e: Expression, cur: nat, h: Heap, fuel: nat, more: nat)
    requires Valid(h) && cur < |h.frames| && fuel <= more
    requires Settled(EvalExpr(e, cur, h, fuel))
    ensures EvalExpr(e, cur, h, more) == EvalExpr(e, cur, h, fuel)
    decreases fuel, ExprSize(e), 0
  {
    match e
    case ArithmeticOperation(_, left, right) =>
      BinaryFuel(left, right, cur, h, fuel, more);
    case EqualityOperation(_, left, right) =>
      BinaryFuel(left, right, cur, h, fuel, more);
    case RelationalOperation(_, left, right) =>
      BinaryFuel(left, right, cur, h, fuel, more);
    case FunctionApplication(callee, arguments) =>
      var f := EvalExpr(callee, cur, h, fuel);
      if Settled(f) {
        EvalExprFuel(callee, cur, h, fuel, more);
        if f.Success? && f.value.0.Function? {
          var args := EvalArgs(arguments, cur, f.value.1, fuel);
          if Settled(args) {
            EvalArgsFuel(arguments, cur, f.value.1, fuel, more);
            if args.Success? {
              ApplyFuel(f.value.0.fn, args.value.0, args.value.1, fuel, more);
            }
          }
        }
      }
    case _ =>
  }

  /** Both operands of a binary operator keep their outcome under more fuel. */
  lemma {:induction false} BinaryFuel(left: Expression, right: Expression, cur: nat, h: Heap, fuel: nat, more: nat)
    requires Valid(h) && cur < |h.frames| && fuel <= more
    ensures var l := EvalExpr(left, cur, h, fuel);
            && (Settled(l) ==> EvalExpr(left, cur, h, more) == l)
            && (l.Success? && Settled(EvalExpr(right, cur, l.value.1, fuel)) ==>
                  EvalExpr(right, cur, l.value.1, more) == EvalExpr(right, cur, l.value.1, fuel))
    decreases fuel, ExprSize(left) + ExprSize(right), 1
  {
    var l := EvalExpr(left, cur, h, fuel);
    if Settled(l) {
      EvalExprFuel(left, cur, h, fuel, more);
      if l.Success? && Settled(EvalExpr(right, cur, l.value.1, fuel)) {
        EvalExprFuel(right, cur, l.value.1, fuel, more);
      }
    }
  }

  lemma {:induction false} EvalArgsFuel(es: seq<Expression>, cur: nat, h: Heap, fuel: nat, more: nat)
    requires Valid(h) && cur < |h.frames| && fuel <= more
    requires Settled(EvalArgs(es, cur, h, fuel))
    ensures EvalArgs(es, cur, h, more) == EvalArgs(es, cur, h, fuel)
    decreases fuel, ExprsSize(es), 1
  {
    if es != [] {
      var first := EvalExpr(es[0], cur, h, fuel);
      if Settled(first) {
        EvalExprFuel(es[0], cur, h, fuel, more);
        if first.Success? && Settled(EvalArgs(es[1..], cur, first.value.1, fuel)) {
          EvalArgsFuel(es[1..], cur, first.value.1, fuel, more);
        }
      }
    }
  }

  lemma {:induction false} ApplyFuel(fn: FunctionRef, args: seq<Value>, h: Heap, fuel: nat, more: nat)
    requires Valid(h) && ValueOk(Function(fn), BoundsOf(h)) && AllOk(args, BoundsOf(h)) && fuel <= more
    requires Settled(Apply(fn, args, h, fuel))
    ensures Apply(fn, args, h, more) == Apply(fn, args, h, fuel)
    decreases fuel, 0, 1
  {
    if fn.CompoundFunction? {
      ApplyCompoundFuel(fn.address, args, h, fuel, more);
    }
  }

  lemma {:induction false} ApplyCompoundFuel(addr: nat, args: seq<Value>, h: Heap, fuel: nat, more: nat)
    requires Valid(h) && addr < |h.closures| && AllOk(args, BoundsOf(h)) && fuel <= more
    requires Settled(ApplyCompound(addr, args, h, fuel))
    ensures ApplyCompound(addr, args, h, more) == ApplyCompound(addr, args, h, fuel)
    decreases fuel, 0, 0
  {
    if fuel > 0 {
      var entry := EnterCall(addr, args, h);
      if entry.Success? {
        var body := h.closures[addr].body;
        if Settled(ExecStmts(body, entry.value.0, entry.value.1, fuel - 1)) {
          ExecStmtsFuel(body, entry.value.0, entry.value.1, fuel - 1, more - 1);
        }
      }
    }
  }

  lemma {:induction false} ExecStmtFuel(s: Statement, cur: nat, h: Heap, fuel: nat, more: nat)
    requires Valid(h) && cur < |h.frames| && fuel <= more
    requires Settled(ExecStmt(s, cur, h, fuel))
    ensures ExecStmt(s, cur, h, more) == ExecStmt(s, cur, h, fuel)
    decreases fuel, StmtSize(s), 0
  {
    match s
    case ThrowawayExpression(e) =>
      if Settled(EvalExpr(e, cur, h, fuel)) { EvalExprFuel(e, cur, h, fuel, more); }
    case ValueDefinition(_, e) =>
      if Settled(EvalExpr(e, cur, h, fuel)) { EvalExprFuel(e, cur, h, fuel, more); }
    case VariableAssignment(_, e) =>
      if Settled(EvalExpr(e, cur, h, fuel)) { EvalExprFuel(e, cur, h, fuel, more); }
    case Return(e) =>
      if Settled(EvalExpr(e, cur, h, fuel)) { EvalExprFuel(e, cur, h, fuel, more); }
    case Conditional(cond, t, f) =>
      var c := EvalExpr(cond, cur, h, fuel);
      if Settled(c) {
        EvalExprFuel(cond, cur, h, fuel, more);
        if c.Success? {
          if Settled(ExecStmts(t, cur, c.value.1, fuel)) { ExecStmtsFuel(t, cur, c.value.1, fuel, more); }
          if Settled(ExecStmts(f, cur, c.value.1, fuel)) { ExecStmtsFuel(f, cur, c.value.1, fuel, more); }
        }
      }
    case Loop(loop, body) =>
      RunLoopFuel(loop, body, cur, h, fuel, more);
    case Break(_) =>
  }

  lemma {:induction false} ExecStmtsFuel(ss: seq<Statement>, cur: nat, h: Heap, fuel: nat, more: nat)
    requires Valid(h) && cur < |h.frames| && fuel <= more
    requires Settled(ExecStmts(ss, cur, h, fuel))
    ensures ExecStmts(ss, cur, h, more) == ExecStmts(ss, cur, h, fuel)
    decreases fuel, StmtsSize(ss), 1
  {
    if ss != [] {
      var first := ExecStmt(ss[0], cur, h, fuel);
      if Settled(first) {
        ExecStmtFuel(ss[0], cur, h, fuel, more);
        if first.Success? && Settled(ExecStmts(ss[1..], cur, first.value.1, fuel)) {
          ExecStmtsFuel(ss[1..], cur, first.value.1, fuel, more);
        }
      }
    }
  }

  lemma {:induction false} RunLoopFuel(loop: LoopLabel, body: seq<Statement>, cur: nat, h: Heap, fuel: nat, more: nat)
    requires Valid(h) && cur < |h.frames| && fuel <= more
    requires Settled(RunLoop(loop, body, cur, h, fuel))
    ensures RunLoop(loop, body, cur, h, more) == RunLoop(loop, body, cur, h, fuel)
    decreases fuel, StmtsSize(body) + 1, 0
  {
    if fuel > 0 {
      var pass := ExecStmts(body, cur, h, fuel - 1);
      if Settled(pass) {
        ExecStmtsFuel(body, cur, h, fuel - 1, more - 1);
        if pass.Success? && Settled(RunLoop(loop, body, cur, pass.value.1, fuel - 1)) {
          RunLoopFuel(loop, body, cur, pass.value.1, fuel - 1, more - 1);
        }
      }
    }
  }

  /** A whole program's outcome, once settled, does not depend on the budget. */
  lemma ProgramOutcomeIndependentOfFuel(ss: seq<Statement>, cur: nat, h: Heap, fuel: nat, more: nat)
    requires Valid(h) && cur < |h.frames| && fuel <= more
    requires Settled(ExecuteTopLevel(ss, cur, h, fuel))
    ensures ExecuteTopLevel(ss, cur, h, more) == ExecuteTopLevel(ss, cur, h, fuel)
  {
    if Settled(ExecStmts(ss, cur, h, fuel)) {
      ExecStmtsFuel(ss, cur, h, fuel, more);
    }
  }

}

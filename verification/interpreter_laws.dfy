/**
 * Properties of the evaluator: how statement lists compose, what loops and
 * conditionals do with control signals, the order in which operands are
 * evaluated and cast, identity of closures, and the calling convention.
 */
module InterpreterLaws {
  import opened Options
  import opened Locations
  import opened Values
  import opened Errors
  import opened Ast
  import CA = ControlActions
  import Stores
  import opened Heaps
  import opened Casts
  import opened Interpreter

  /**
   * Running `a + b` runs `a`, and continues with `b` in the state `a` left
   * exactly when `a` fell through.
   */
  lemma {:induction false} ExecStmtsAppend(a: seq<Statement>, b: seq<Statement>, cur: nat, h: Heap, fuel: nat)
    requires Valid(h) && cur < |h.frames|
    ensures var ra := ExecStmts(a, cur, h, fuel);
            ExecStmts(a + b, cur, h, fuel) ==
              if ra.Failure? then Failure(ra.error)
              else if ra.value.0.Next? then ExecStmts(b, cur, ra.value.1, fuel)
              else ra
    decreases |a|
  {
    if a == [] {
      assert a + b == b;
    } else {
      assert (a + b)[0] == a[0];
      assert (a + b)[1..] == a[1..] + b;
      var first := ExecStmt(a[0], cur, h, fuel);
      if first.Success? && !CA.ShouldExit(first.value.0) {
        ExecStmtsAppend(a[1..], b, cur, first.value.1, fuel);
      }
    }
  }

  /** A statement list stops at the first exit signal: what follows a `break` never runs. */
  lemma BreakSkipsTheRest(loop: LoopLabel, rest: seq<Statement>, cur: nat, h: Heap, fuel: nat)
    requires Valid(h) && cur < |h.frames|
    ensures ExecStmts([Ast.Break(loop)] + rest, cur, h, fuel) == Success((CA.Break(loop), h))
  {
    assert ([Ast.Break(loop)] + rest)[0] == Ast.Break(loop);
  }

  /** A loop never lets a break of its own label escape. */
  lemma {:induction false} LoopAbsorbsOwnBreak(loop: LoopLabel, body: seq<Statement>, cur: nat, h: Heap, fuel: nat)
    requires Valid(h) && cur < |h.frames|
    ensures var r := RunLoop(loop, body, cur, h, fuel);
            r.Success? ==> r.value.0 != CA.Break(loop)
    decreases fuel
  {
    if fuel > 0 {
      var pass := ExecStmts(body, cur, h, fuel - 1);
      if pass.Success? && pass.value.0.Next? {
        LoopAbsorbsOwnBreak(loop, body, cur, pass.value.1, fuel - 1);
      }
    }
  }

  /**
   * One pass of a loop body: a break of this loop ends the loop normally, a
   * break of another loop or a return leaves the loop unchanged, and falling
   * through starts another pass.
   */
  lemma LoopPass(loop: LoopLabel, body: seq<Statement>, cur: nat, h: Heap, fuel: nat)
    requires Valid(h) && cur < |h.frames| && fuel > 0
    ensures var pass := ExecStmts(body, cur, h, fuel - 1);
            var r := ExecStmt(Ast.Loop(loop, body), cur, h, fuel);
            && (pass.Failure? ==> r == Failure(pass.error))
            && (pass.Success? && pass.value.0 == CA.Break(loop) ==> r == Success((CA.Next, pass.value.1)))
            && (pass.Success? && pass.value.0.Break? && pass.value.0.loop != loop ==> r == pass)
            && (pass.Success? && pass.value.0.Return? ==> r == pass)
            && (pass.Success? && pass.value.0.Next? ==> r == RunLoop(loop, body, cur, pass.value.1, fuel - 1))
  {
  }

  /** A conditional runs the else branch exactly when the condition is null or false. */
  lemma ConditionalRunsOneBranch(cond: Expression, t: seq<Statement>, f: seq<Statement>, cur: nat, h: Heap, fuel: nat)
    requires Valid(h) && cur < |h.frames|
    ensures var c := EvalExpr(cond, cur, h, fuel);
            var r := ExecStmt(Conditional(cond, t, f), cur, h, fuel);
            && (c.Failure? ==> r == Failure(c.error))
            && (c.Success? && (c.value.0 == Null || c.value.0 == Boolean(false)) ==> r == ExecStmts(f, cur, c.value.1, fuel))
            && (c.Success? && c.value.0 != Null && c.value.0 != Boolean(false) ==> r == ExecStmts(t, cur, c.value.1, fuel))
  {
  }

  /** Zero is truthy: only null and false select the else branch. */
  lemma ZeroIsTruthy(t: seq<Statement>, f: seq<Statement>, cur: nat, h: Heap, fuel: nat)
    requires Valid(h) && cur < |h.frames|
    ensures ExecStmt(Conditional(Constant(NumberLiteral(0.0)), t, f), cur, h, fuel) == ExecStmts(t, cur, h, fuel)
  {
  }

  /** `!=` evaluates like `==`, with the same effects and the negated answer. */
  lemma UnequalNegatesEqual(left: Expression, right: Expression, cur: nat, h: Heap, fuel: nat)
    requires Valid(h) && cur < |h.frames|
    ensures var eq := EvalExpr(EqualityOperation(Equal, left, right), cur, h, fuel);
            var ne := EvalExpr(EqualityOperation(Unequal, left, right), cur, h, fuel);
            && eq.Success? == ne.Success?
            && (eq.Failure? ==> eq.error == ne.error)
            && (eq.Success? ==> eq.value.1 == ne.value.1 && eq.value.0.Boolean? && ne.value.0 == Boolean(!eq.value.0.b))
  {
  }

  /**
   * Equality never fails on its own account: once both operands evaluate,
   * the answer is whether the values are the same value.
   */
  lemma EqualityIsTotal(left: Expression, right: Expression, cur: nat, h: Heap, fuel: nat)
    requires Valid(h) && cur < |h.frames|
    requires EvalExpr(left, cur, h, fuel).Success?
    requires EvalExpr(right, cur, EvalExpr(left, cur, h, fuel).value.1, fuel).Success?
    ensures var l := EvalExpr(left, cur, h, fuel).value;
            var r := EvalExpr(right, cur, l.1, fuel).value;
            EvalExpr(EqualityOperation(Equal, left, right), cur, h, fuel) == Success((Boolean(l.0 == r.0), r.1))
  {
    var l := EvalExpr(left, cur, h, fuel).value;
    var r := EvalExpr(right, cur, l.1, fuel).value;
    assert ValueEquals(l.0, r.0) == (l.0 == r.0);
  }

  /**
   * Each evaluation of a function abstraction creates a new function: two
   * evaluations of the same abstraction are unequal.
   */
  lemma ClosuresHaveIdentity(self: Option<ValueLocation>, params: seq<ValueLocation>, body: seq<Statement>, cur: nat, h: Heap, fuel: nat)
    requires Valid(h) && cur < |h.frames|
    ensures var abs := FunctionAbstraction(self, params, body);
            var r := EvalExpr(EqualityOperation(Equal, abs, abs), cur, h, fuel);
            r.Success? && r.value.0 == Boolean(false)
  {
  }

  /**
   * Arithmetic and relational operators evaluate both operands before
   * casting either: a non-number on the left is reported only after the
   * right operand has evaluated, and its failure takes precedence.
   */
  lemma OperandsBeforeCasts(aop: ArithmeticOperator, rop: RelationalOperator, left: Expression, right: Expression, cur: nat, h: Heap, fuel: nat)
    requires Valid(h) && cur < |h.frames|
    requires EvalExpr(left, cur, h, fuel).Success? && !EvalExpr(left, cur, h, fuel).value.0.Number?
    ensures var l := EvalExpr(left, cur, h, fuel).value;
            var r := EvalExpr(right, cur, l.1, fuel);
            var expected: Result<(Value, Heap)> :=
              if r.Failure? then Failure(r.error) else Failure(CastException("number", l.0));
            && EvalExpr(ArithmeticOperation(aop, left, right), cur, h, fuel) == expected
            && EvalExpr(RelationalOperation(rop, left, right), cur, h, fuel) == expected
  {
  }

  /** The right operand is cast only after the left one has been accepted. */
  lemma RightCastAfterLeft(aop: ArithmeticOperator, x: real, right: Expression, cur: nat, h: Heap, fuel: nat)
    requires Valid(h) && cur < |h.frames|
    requires EvalExpr(right, cur, h, fuel).Success? && !EvalExpr(right, cur, h, fuel).value.0.Number?
    ensures EvalExpr(ArithmeticOperation(aop, Constant(NumberLiteral(x)), right), cur, h, fuel)
            == Failure(CastException("number", EvalExpr(right, cur, h, fuel).value.0))
  {
  }

  /**
   * Application checks the callee before evaluating any argument: a
   * non-function callee fails with a cast error even when an argument would
   * itself fail.
   */
  lemma CalleeCheckedBeforeArguments(callee: Expression, args: seq<Expression>, cur: nat, h: Heap, fuel: nat)
    requires Valid(h) && cur < |h.frames|
    requires EvalExpr(callee, cur, h, fuel).Success? && !EvalExpr(callee, cur, h, fuel).value.0.Function?
    ensures EvalExpr(FunctionApplication(callee, args), cur, h, fuel)
            == Failure(CastException("function", EvalExpr(callee, cur, h, fuel).value.0))
  {
  }

  /** Greater and less are mirror images, and `>=` is the negation of `<` on numbers. */
  lemma RelationalDuality(x: real, y: real)
    ensures Compare(Greater, x, y) == Compare(Less, y, x)
    ensures Compare(GreaterEqual, x, y) == !Compare(Less, x, y)
    ensures Compare(LessEqual, x, y) == !Compare(Greater, x, y)
  {
  }

  /** Subtraction undoes addition, and division by a non-zero number undoes multiplication. */
  lemma ArithmeticInverses(x: real, y: real)
    ensures Arith(Subtraction, Arith(Addition, x, y), y) == x
    ensures y != 0.0 ==> Arith(Division, Arith(Multiplication, x, y), y) == x
  {
  }

  /** A defined value is what a later lookup in the same frame yields. */
  lemma DefinitionThenLookup(x: ValueLocation, lit: Literal, cur: nat, h: Heap, fuel: nat)
    requires Valid(h) && cur < |h.frames| && x !in h.frames[cur].vals
    ensures var r := ExecStmt(ValueDefinition(x, Constant(lit)), cur, h, fuel);
            && r.Success? && r.value.0 == CA.Next
            && EvalExpr(ValueLookup(x), cur, r.value.1, fuel) == Success((LiteralValue(lit), r.value.1))
  {
    var r := ExecStmt(ValueDefinition(x, Constant(lit)), cur, h, fuel);
    Stores.DefineThenLookup(h.frames, cur, x, LiteralValue(lit));
  }

  /** A value cannot be defined twice in the same frame. */
  lemma NoRedefinition(x: ValueLocation, a: Literal, b: Literal, cur: nat, h: Heap, fuel: nat)
    requires Valid(h) && cur < |h.frames| && x !in h.frames[cur].vals
    ensures ExecStmts([ValueDefinition(x, Constant(a)), ValueDefinition(x, Constant(b))], cur, h, fuel)
            == Failure(ValueAlreadyDefined(x))
  {
    var ss := [ValueDefinition(x, Constant(a)), ValueDefinition(x, Constant(b))];
    assert EvalExpr(Constant(a), cur, h, fuel) == Success((LiteralValue(a), h));
    var first := ExecStmt(ss[0], cur, h, fuel);
    assert first.Success? && first.value.0 == CA.Next;
    var h1 := first.value.1;
    assert EvalExpr(Constant(b), cur, h1, fuel) == Success((LiteralValue(b), h1));
    assert x in h1.frames[cur].vals;
    assert ExecStmt(ss[1], cur, h1, fuel) == Failure(ValueAlreadyDefined(x));
    assert ss[1..] == [ss[1]];
    assert ExecStmts(ss[1..], cur, h1, fuel) == Failure(ValueAlreadyDefined(x));
  }

  /** A variable may be reassigned; a lookup sees the last assignment. */
  lemma ReassignmentThenLookup(y: VariableLocation, a: Literal, b: Literal, cur: nat, h: Heap, fuel: nat)
    requires Valid(h) && cur < |h.frames|
    ensures var ss := [VariableAssignment(y, Constant(a)), VariableAssignment(y, Constant(b))];
            var r := ExecStmts(ss, cur, h, fuel);
            && r.Success? && r.value.0 == CA.Next
            && EvalExpr(VariableLookup(y), cur, r.value.1, fuel) == Success((LiteralValue(b), r.value.1))
  {
    var ss := [VariableAssignment(y, Constant(a)), VariableAssignment(y, Constant(b))];
    assert EvalExpr(Constant(a), cur, h, fuel) == Success((LiteralValue(a), h));
    var first := ExecStmt(ss[0], cur, h, fuel);
    assert first.Success? && first.value.0 == CA.Next;
    assert EvalExpr(Constant(b), cur, first.value.1, fuel) == Success((LiteralValue(b), first.value.1));
    var second := ExecStmt(ss[1], cur, first.value.1, fuel);
    assert second.Success? && second.value.0 == CA.Next;
    assert y in second.value.1.frames[cur].vars && second.value.1.frames[cur].vars[y] == LiteralValue(b);
    assert ss[1..] == [ss[1]];
    assert ExecStmts(ss[1..], cur, first.value.1, fuel) == ExecStmts([], cur, second.value.1, fuel);
  }

  /** The outcome of a program at top level: only falling through is normal. */
  lemma TopLevelOutcomes(ss: seq<Statement>, cur: nat, h: Heap, fuel: nat)
    requires Valid(h) && cur < |h.frames|
    ensures var out := ExecStmts(ss, cur, h, fuel);
            var r := ExecuteTopLevel(ss, cur, h, fuel);
            && r.Success? == (out.Success? && out.value.0.Next?)
            && (r.Success? ==> r.value == out.value.1)
            && (out.Success? && out.value.0.Break? ==> r == Failure(BreakAtTopLevel(out.value.0.loop)))
            && (out.Success? && out.value.0.Return? ==> r == Failure(ReturnAtTopLevel(out.value.0.returned)))
  {
  }

}

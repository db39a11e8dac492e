/**
 * The located syntax tree the interpreter runs, as the interpreter and the
 * printer use it: closed variant sets compared by Dafny's structural
 * equality. The loop, break and return statements and the self name of a
 * function abstraction come from that use, not from the tree's own classes,
 * whose `equals` methods cover only the variants and fields they declare.
 */
module Ast {
  import opened Options
  import opened Locations

  datatype ArithmeticOperator = Addition | Subtraction | Multiplication | Division

  datatype EqualityOperator = Equal | Unequal

  datatype RelationalOperator = Greater | Less | GreaterEqual | LessEqual

  /** Constants written in the program text. */
  datatype Literal =
    | NullLiteral
    | BooleanLiteral(b: bool)
    | NumberLiteral(n: real)

  datatype Expression =
    | Constant(literal: Literal)
    | ValueLookup(valueLoc: ValueLocation)
    | VariableLookup(variableLoc: VariableLocation)
    | ArithmeticOperation(arithmeticOp: ArithmeticOperator, left: Expression, right: Expression)
    | EqualityOperation(equalityOp: EqualityOperator, left: Expression, right: Expression)
    | RelationalOperation(relationalOp: RelationalOperator, left: Expression, right: Expression)
    | FunctionApplication(callee: Expression, arguments: seq<Expression>)
    | FunctionAbstraction(self: Option<ValueLocation>, parameters: seq<ValueLocation>, body: seq<Statement>)

  datatype Statement =
    | ThrowawayExpression(expr: Expression)
    | ValueDefinition(valueLoc: ValueLocation, expr: Expression)
    | VariableAssignment(variableLoc: VariableLocation, expr: Expression)
    | Conditional(cond: Expression, thenStmts: seq<Statement>, elseStmts: seq<Statement>)
    | Loop(loopLabel: LoopLabel, loopBody: seq<Statement>)
    | Break(breakLabel: LoopLabel)
    | Return(expr: Expression)

  /*
   * Syntactic sizes, the measure the interpreter's mutual recursion descends
   * on. A function abstraction counts as a leaf: its body runs only when the
   * closure is applied, and that costs fuel.
   */

  function ExprSize(e: Expression): (n: nat)
    ensures n >= 1
  {
    match e
    case ArithmeticOperation(_, l, r) => 1 + ExprSize(l) + ExprSize(r)
    case EqualityOperation(_, l, r) => 1 + ExprSize(l) + ExprSize(r)
    case RelationalOperation(_, l, r) => 1 + ExprSize(l) + ExprSize(r)
    case FunctionApplication(f, args) => 1 + ExprSize(f) + ExprsSize(args)
    case _ => 1
  }

  function ExprsSize(es: seq<Expression>): nat
  {
    if es == [] then 0 else ExprSize(es[0]) + ExprsSize(es[1..])
  }

  function StmtSize(s: Statement): (n: nat)
    ensures n >= 1
  {
    match s
    case ThrowawayExpression(e) => 1 + ExprSize(e)
    case ValueDefinition(_, e) => 1 + ExprSize(e)
    case VariableAssignment(_, e) => 1 + ExprSize(e)
    case Conditional(c, t, f) => 1 + ExprSize(c) + StmtsSize(t) + StmtsSize(f)
    case Loop(_, b) => 2 + StmtsSize(b)
    case Break(_) => 1
    case Return(e) => 1 + ExprSize(e)
  }

  function StmtsSize(ss: seq<Statement>): nat
  {
    if ss == [] then 0 else StmtSize(ss[0]) + StmtsSize(ss[1..])
  }

}

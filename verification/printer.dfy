/**
 * The printer: renders literals, values, expressions and statements as
 * strings. Numbers are rendered by Java's `Double.toString`, which is host
 * library code; every function here takes that rendering as the parameter
 * `num`. For integral numbers of magnitude below 10^7 its output is the
 * digits followed by ".0", which `IntegralDecimal` models exactly.
 */
module Printer {
  import opened Options
  import opened Locations
  import opened Values
  import opened Ast
  import Interpreter

  /** Decimal digits of a natural number, most significant first. */
  function NatToString(n: nat): (s: string)
    ensures |s| >= 1 && forall i :: 0 <= i < |s| ==> '0' <= s[i] <= '9'
    decreases n
  {
    if n < 10 then [Digit(n)] else NatToString(n / 10) + [Digit(n % 10)]
  }

  function Digit(d: nat): (c: char)
    requires d < 10
    ensures '0' <= c <= '9' && c as int - '0' as int == d
  {
    ('0' as int + d) as char
  }

  /** Reads a string of decimal digits back as a number. */
  function ParseNat(s: string): nat
    requires forall i :: 0 <= i < |s| ==> '0' <= s[i] <= '9'
  {
    if s == [] then 0 else ParseNat(s[..|s| - 1]) * 10 + (s[|s| - 1] as int - '0' as int)
  }

  /** Reading the digits back gives the number that was printed. */
  lemma {:induction false} NatRoundTrip(n: nat)
    ensures ParseNat(NatToString(n)) == n
    decreases n
  {
    var s := NatToString(n);
    if n >= 10 {
      NatRoundTrip(n / 10);
      assert s[..|s| - 1] == NatToString(n / 10);
    }
  }

  /** Distinct numbers print as distinct digit strings. */
  lemma NatToStringInjective(m: nat, n: nat)
    requires NatToString(m) == NatToString(n)
    ensures m == n
  {
    NatRoundTrip(m);
    NatRoundTrip(n);
  }

  /** `Double.toString` of an integral number below 10^7 in magnitude: optional sign, digits, ".0". */
  function IntegralDecimal(k: int): (s: string)
    requires -10_000_000 < k < 10_000_000
    ensures |s| >= 3 && s[|s| - 2..] == ".0"
    ensures (s[0] == '-') <==> k < 0
  {
    (if k < 0 then "-" else "") + NatToString(if k < 0 then -k else k) + ".0"
  }

  predicate AllDigits(s: string)
  {
    forall i :: 0 <= i < |s| ==> '0' <= s[i] <= '9'
  }

  /** Reads back an optional sign, a digit string and ".0"; anything else is rejected. */
  function ParseIntegralDecimal(s: string): (r: Option<int>)
  {
    if |s| < 3 || s[|s| - 2..] != ".0" then None
    else
      var body := s[..|s| - 2];
      if |body| >= 2 && body[0] == '-' && AllDigits(body[1..]) then Some(-(ParseNat(body[1..]) as int))
      else if |body| >= 1 && AllDigits(body) then Some(ParseNat(body))
      else None
  }

  /** A printed integral number reads back as itself. */
  lemma IntegralDecimalRoundTrip(k: int)
    requires -10_000_000 < k < 10_000_000
    ensures ParseIntegralDecimal(IntegralDecimal(k)) == Some(k)
  {
    var digits := NatToString(if k < 0 then -k else k);
    var s := IntegralDecimal(k);
    NatRoundTrip(if k < 0 then -k else k);
    if k < 0 {
      assert s[..|s| - 2] == "-" + digits;
      assert ("-" + digits)[1..] == digits;
    } else {
      assert s[..|s| - 2] == digits;
    }
  }

  /**
   * `caseNull` … `caseBoolean` and `caseNumber` as used for literals: null
   * and the booleans print as lower-case keywords.
   */
  function LiteralToString(lit: Literal, num: real -> string): (s: string)
    ensures !lit.NumberLiteral? ==> |s| >= 4 && forall i :: 0 <= i < |s| ==> 'a' <= s[i] <= 'z'
  {
    match lit
    case NullLiteral => "null"
    case BooleanLiteral(b) => if b then "true" else "false"
    case NumberLiteral(n) => num(n)
  }

  /** `toString(Value)`: reference values print a tag and the cell's number; all functions print alike. */
  function ValueToString(v: Value, num: real -> string): (s: string)
    ensures !v.Number? ==> |s| >= 4
    ensures (v.Function? || v.Id? || v.Box? || v.Array?) ==> s[..2] == "#<" && s[|s| - 1] == '>'
    ensures (v.Null? || v.Boolean?) ==> s[0] != '#'
  {
    match v
    case Null => "null"
    case Boolean(b) => if b then "true" else "false"
    case Number(n) => num(n)
    case Function(_) => "#<fn>"
    case Id(n) => "#<id" + NatToString(n) + ">"
    case Box(n) => "#<box" + NatToString(n) + ">"
    case Array(n) => "#<array" + NatToString(n) + ">"
  }

  /** The operator symbols contain no parenthesis, so they cannot upset the bracketing. */
  function ArithmeticSymbol(op: ArithmeticOperator): (s: string)
    ensures |s| >= 1 && forall i :: 0 <= i < |s| ==> s[i] != '(' && s[i] != ')'
  {
    match op
    case Addition => "+"
    case Subtraction => "-"
    case Multiplication => "*"
    case Division => "/"
  }

  function EqualitySymbol(op: EqualityOperator): (s: string)
    ensures |s| >= 1 && forall i :: 0 <= i < |s| ==> s[i] != '(' && s[i] != ')'
  {
    match op
    case Equal => "=="
    case Unequal => "!="
  }

  function RelationalSymbol(op: RelationalOperator): (s: string)
    ensures |s| >= 1 && forall i :: 0 <= i < |s| ==> s[i] != '(' && s[i] != ')'
  {
    match op
    case Greater => ">"
    case Less => "<"
    case GreaterEqual => ">="
    case LessEqual => "<="
  }

  /**
   * `toString(Expression)`: binary operations are fully parenthesised;
   * applications and abstractions print as opaque tags.
   */
  function ExprToString(e: Expression, num: real -> string): (s: string)
    ensures (e.ArithmeticOperation? || e.EqualityOperation? || e.RelationalOperation?) ==>
              |s| >= 3 && s[0] == '(' && s[|s| - 1] == ')'
  {
    match e
    case Constant(lit) => LiteralToString(lit, num)
    case ValueLookup(loc) => loc.name
    case VariableLookup(loc) => loc.name
    case ArithmeticOperation(op, l, r) => "(" + ExprToString(l, num) + ArithmeticSymbol(op) + ExprToString(r, num) + ")"
    case EqualityOperation(op, l, r) => "(" + ExprToString(l, num) + EqualitySymbol(op) + ExprToString(r, num) + ")"
    case RelationalOperation(op, l, r) => "(" + ExprToString(l, num) + RelationalSymbol(op) + ExprToString(r, num) + ")"
    case FunctionApplication(_, _) => "#<function application>"
    case FunctionAbstraction(_, _, _) => "#<function abstraction>"
  }

  /** `toString(Statement)` */
  function StmtToString(s: Statement, num: real -> string): (r: string)
    ensures |r| >= 1
    ensures (s.ThrowawayExpression? || s.ValueDefinition? || s.VariableAssignment? || s.Return?) ==> r[|r| - 1] == ';'
    ensures s.Conditional? ==> r[|r| - 1] == '}'
  {
    match s
    case ThrowawayExpression(e) => ExprToString(e, num) + ";"
    case ValueDefinition(loc, e) => "val " + loc.name + "=" + ExprToString(e, num) + ";"
    case VariableAssignment(loc, e) => loc.name + "=" + ExprToString(e, num) + ";"
    case Conditional(c, t, f) =>
      "if " + ExprToString(c, num) + "{" + StmtsToString(t, num) + "}else{" + StmtsToString(f, num) + "}"
    case Loop(_, _) => "#<loop>"
    case Break(_) => "#<break>"
    case Return(e) => "return " + ExprToString(e, num) + ";"
  }

  /** `toString(List<Statement>)`: the statements' renderings, back to back. */
  function StmtsToString(ss: seq<Statement>, num: real -> string): (r: string)
    ensures |r| >= |ss|
    ensures r == "" <==> ss == []
  {
    if ss == [] then "" else StmtToString(ss[0], num) + StmtsToString(ss[1..], num)
  }

  /** Printing a list of statements distributes over concatenation. */
  lemma {:induction false} StmtsToStringAppend(a: seq<Statement>, b: seq<Statement>, num: real -> string)
    ensures StmtsToString(a + b, num) == StmtsToString(a, num) + StmtsToString(b, num)
    decreases |a|
  {
    if a == [] {
      assert a + b == b;
    } else {
      assert (a + b)[0] == a[0];
      assert (a + b)[1..] == a[1..] + b;
      StmtsToStringAppend(a[1..], b, num);
    }
  }

  /** A constant prints exactly as the value it evaluates to. */
  lemma ConstantPrintsAsItsValue(lit: Literal, num: real -> string)
    ensures ExprToString(Constant(lit), num) == ValueToString(Interpreter.LiteralValue(lit), num)
  {
  }

  /** Value renderings that do not depend on the number format never collide across variants. */
  lemma TagsDistinguishVariants(a: Value, b: Value, num: real -> string)
    requires !a.Number? && !b.Number?
    requires ValueToString(a, num) == ValueToString(b, num)
    ensures a.Null? == b.Null? && a.Boolean? == b.Boolean? && a.Function? == b.Function?
    ensures a.Id? == b.Id? && a.Box? == b.Box? && a.Array? == b.Array?
  {
    var s := ValueToString(a, num);
    if a.Id? || a.Box? || a.Array? || b.Id? || b.Box? || b.Array? {
      assert |s| >= 4;
      assert s[2] == ValueToString(b, num)[2];
    }
  }

  /**
   * Ids, boxes and arrays print as a tag with their cell number, so two
   * such values print alike exactly when they are the same value. All
   * functions print alike.
   */
  lemma ReferencesPrintInjectively(a: Value, b: Value, num: real -> string)
    requires (a.Id? || a.Box? || a.Array?) && (b.Id? || b.Box? || b.Array?)
    ensures ValueToString(a, num) == ValueToString(b, num) <==> a == b
  {
    if ValueToString(a, num) == ValueToString(b, num) {
      TagsDistinguishVariants(a, b, num);
      var s := ValueToString(a, num);
      var prefix := if a.Id? then "#<id" else if a.Box? then "#<box" else "#<array";
      var m := if a.Id? then a.id else if a.Box? then a.box else a.arr;
      var n := if b.Id? then b.id else if b.Box? then b.box else b.arr;
      assert s == prefix + NatToString(m) + ">";
      assert s == prefix + NatToString(n) + ">";
      assert NatToString(m) == s[|prefix|..|s| - 1] == NatToString(n);
      NatToStringInjective(m, n);
    }
  }

  /** Every function value prints as the same opaque tag. */
  lemma FunctionsPrintAlike(f: FunctionRef, g: FunctionRef, num: real -> string)
    ensures ValueToString(Function(f), num) == ValueToString(Function(g), num) == "#<fn>"
  {
  }

  /** An integral number below 10^7 in magnitude prints as text that reads back as the same number. */
  lemma PrintedNumberReadsBack(k: int, num: real -> string)
    requires -10_000_000 < k < 10_000_000 && num(k as real) == IntegralDecimal(k)
    ensures ParseIntegralDecimal(ValueToString(Number(k as real), num)) == Some(k)
  {
    IntegralDecimalRoundTrip(k);
  }

  /** Number of occurrences of `c` in `s`. */
  function Count(s: string, c: char): nat
  {
    if s == [] then 0 else (if s[0] == c then 1 else 0) + Count(s[1..], c)
  }

  lemma {:induction false} CountAppend(a: string, b: string, c: char)
    ensures Count(a + b, c) == Count(a, c) + Count(b, c)
    decreases |a|
  {
    if a != [] {
      assert (a + b)[0] == a[0];
      assert (a + b)[1..] == a[1..] + b;
      CountAppend(a[1..], b, c);
    } else {
      assert a + b == b;
    }
  }

  /** No name and no number rendering inside `e` contains a parenthesis. */
  predicate ParenFree(e: Expression, num: real -> string)
  {
    match e
    case Constant(lit) => Count(LiteralToString(lit, num), '(') == 0 && Count(LiteralToString(lit, num), ')') == 0
    case ValueLookup(loc) => Count(loc.name, '(') == 0 && Count(loc.name, ')') == 0
    case VariableLookup(loc) => Count(loc.name, '(') == 0 && Count(loc.name, ')') == 0
    case ArithmeticOperation(_, l, r) => ParenFree(l, num) && ParenFree(r, num)
    case EqualityOperation(_, l, r) => ParenFree(l, num) && ParenFree(r, num)
    case RelationalOperation(_, l, r) => ParenFree(l, num) && ParenFree(r, num)
    case _ => true
  }

  /**
   * Binary operations are fully parenthesised: the rendering of an
   * expression opens as many parentheses as it closes, one pair per
   * operator.
   */
  lemma {:induction false} ParenthesesBalance(e: Expression, num: real -> string)
    requires ParenFree(e, num)
    ensures Count(ExprToString(e, num), '(') == Count(ExprToString(e, num), ')') == Operators(e)
  {
    if e.ArithmeticOperation? || e.EqualityOperation? || e.RelationalOperation? {
      ParenthesesBalance(e.left, num);
      ParenthesesBalance(e.right, num);
      BinaryBalance(e, num);
    } else {
      LeafBalance(e, num);
    }
  }

  /** An operand that is not a binary operation renders without parentheses. */
  lemma LeafBalance(e: Expression, num: real -> string)
    requires !(e.ArithmeticOperation? || e.EqualityOperation? || e.RelationalOperation?)
    requires ParenFree(e, num)
    ensures Count(ExprToString(e, num), '(') == Count(ExprToString(e, num), ')') == Operators(e) == 0
  {
    if e.FunctionApplication? || e.FunctionAbstraction? {
      var tag := ExprToString(e, num);
      TagParenFree(tag, '(');
      TagParenFree(tag, ')');
    }
  }

  /** One binary operation: its rendering adds one pair to the operands' balanced counts. */
  lemma BinaryBalance(e: Expression, num: real -> string)
    requires e.ArithmeticOperation? || e.EqualityOperation? || e.RelationalOperation?
    requires Count(ExprToString(e.left, num), '(') == Count(ExprToString(e.left, num), ')') == Operators(e.left)
    requires Count(ExprToString(e.right, num), '(') == Count(ExprToString(e.right, num), ')') == Operators(e.right)
    ensures Count(ExprToString(e, num), '(') == Count(ExprToString(e, num), ')') == Operators(e)
  {
    var sym := match e
      case ArithmeticOperation(op, _, _) => ArithmeticSymbol(op)
      case EqualityOperation(op, _, _) => EqualitySymbol(op)
      case RelationalOperation(op, _, _) => RelationalSymbol(op);
    WrappedBalance(ExprToString(e.left, num), sym, ExprToString(e.right, num));
  }

  /** Wrapping balanced operands and a bracket-free symbol adds exactly one balanced pair. */
  lemma WrappedBalance(l: string, sym: string, r: string)
    requires forall i :: 0 <= i < |sym| ==> sym[i] != '(' && sym[i] != ')'
    requires Count(l, '(') == Count(l, ')') && Count(r, '(') == Count(r, ')')
    ensures var w := "(" + l + sym + r + ")";
            Count(w, '(') == Count(w, ')') == 1 + Count(l, '(') + Count(r, '(')
  {
    BracketCounts(l, sym, r);
  }

  lemma TagParenFree(tag: string, c: char)
    requires tag == "#<function application>" || tag == "#<function abstraction>"
    requires c == '(' || c == ')'
    ensures Count(tag, c) == 0
  {
    CountAbsent(tag, c);
  }

  /** The number of binary operators in an expression, not counting function bodies or arguments. */
  function Operators(e: Expression): nat
  {
    match e
    case ArithmeticOperation(_, l, r) => 1 + Operators(l) + Operators(r)
    case EqualityOperation(_, l, r) => 1 + Operators(l) + Operators(r)
    case RelationalOperation(_, l, r) => 1 + Operators(l) + Operators(r)
    case _ => 0
  }

  lemma {:induction false} CountAbsent(s: string, c: char)
    requires forall i :: 0 <= i < |s| ==> s[i] != c
    ensures Count(s, c) == 0
    decreases |s|
  {
    if s != [] {
      assert forall i :: 0 <= i < |s[1..]| ==> s[1..][i] == s[i + 1];
      CountAbsent(s[1..], c);
    }
  }

  lemma BracketCounts(l: string, sym: string, r: string)
    requires forall i :: 0 <= i < |sym| ==> sym[i] != '(' && sym[i] != ')'
    ensures Count("(" + l + sym + r + ")", '(') == 1 + Count(l, '(') + Count(r, '(')
    ensures Count("(" + l + sym + r + ")", ')') == 1 + Count(l, ')') + Count(r, ')')
  {
    assert "(" + l + sym + r + ")" == "(" + (l + (sym + (r + ")")));
    CountAbsent(sym, '(');
    CountAbsent(sym, ')');
    CountAppend("(", l + (sym + (r + ")")), '(');
    CountAppend(l, sym + (r + ")"), '(');
    CountAppend(sym, r + ")", '(');
    CountAppend(r, ")", '(');
    CountAppend("(", l + (sym + (r + ")")), ')');
    CountAppend(l, sym + (r + ")"), ')');
    CountAppend(sym, r + ")", ')');
    CountAppend(r, ")", ')');
  }

}

/** Expressions of the query language and their value on a row (src/ql/ql_exec.cpp). */
module QlEvals {
  import opened OrderPreserving
  import opened Tables

  datatype CompareOp = EQ | NE | Less | AtMost | Greater | AtLeast

  datatype ArithOp = ADD | SUB | MUL | DIV | MOD

  datatype Expr =
    | Lit(v: Value) | Sym(name: Name) | Star | Tup(kids: seq<Expr>) | Uninit
    | Neg(kid: Expr) | Not(kid: Expr)
    | And(l: Expr, r: Expr) | Or(l: Expr, r: Expr)
    | Compare(op: CompareOp, l: Expr, r: Expr)
    | Arith(aop: ArithOp, l: Expr, r: Expr)

  function Bool(b: bool): Value
  {
    Int(if b then 1 else 0)
  }

  /** The sign of the difference of two values of one type. */
  function CompareValues(a: Value, b: Value): Option<int>
  {
    if a.Type() != b.Type() then None
    else if ValueLt(a, b) then Some(-1)
    else if ValueLt(b, a) then Some(1)
    else Some(0)
  }

  predicate CmpHolds(op: CompareOp, c: int)
  {
    match op
    case EQ => c == 0
    case NE => c != 0
    case Less => c < 0
    case AtMost => c <= 0
    case Greater => c > 0
    case AtLeast => c >= 0
  }

  function Abs(n: int): nat
  {
    if n < 0 then -n else n
  }

  /** Division as the source's language does it: toward zero, the remainder with the dividend's sign. */
  function TruncDiv(a: int, b: int): int
    requires b != 0
  {
    if (a < 0) == (b < 0) then Abs(a) / Abs(b) else -(Abs(a) / Abs(b))
  }

  function TruncMod(a: int, b: int): int
    requires b != 0
  {
    if a < 0 then -(Abs(a) % Abs(b)) else Abs(a) % Abs(b)
  }

  lemma TruncDivMod(a: int, b: int)
    requires b != 0
    ensures a == TruncDiv(a, b) * b + TruncMod(a, b)
    ensures Abs(TruncMod(a, b)) < Abs(b) && (TruncMod(a, b) == 0 || (TruncMod(a, b) < 0) == (a < 0))
  {
    var q, r := Abs(a) / Abs(b), Abs(a) % Abs(b);
    assert Abs(a) == q * Abs(b) + r;
    if (a < 0) == (b < 0) {
      assert TruncDiv(a, b) * b == q * b;
      assert b < 0 ==> q * b == -(q * Abs(b));
    } else {
      assert TruncDiv(a, b) * b == -q * b;
      assert b < 0 ==> -q * b == q * Abs(b);
      assert b > 0 ==> -q * b == -(q * Abs(b));
    }
  }

  predicate Fits64(n: int)
  {
    -0x8000_0000_0000_0000 <= n < 0x8000_0000_0000_0000
  }

  /** None for an overflow or a zero divisor. */
  function ArithValue(op: ArithOp, a: Int64, b: Int64): Option<Int64>
  {
    if (op.DIV? || op.MOD?) && b == 0 then None
    else if (op.DIV? || op.MOD?) && a == -0x8000_0000_0000_0000 && b == -1 then None
    else
      var n := match op
        case ADD => a + b
        case SUB => a - b
        case MUL => a * b
        case DIV => TruncDiv(a, b)
        case MOD => TruncMod(a, b);
      if Fits64(n) then Some(n) else None
  }

  /** The quotient always fits but for the one case turned away, so only +, - and * overflow. */
  lemma DivisionFits(op: ArithOp, a: Int64, b: Int64)
    requires (op.DIV? || op.MOD?) && b != 0 && !(a == -0x8000_0000_0000_0000 && b == -1)
    ensures ArithValue(op, a, b) == Some(if op.DIV? then TruncDiv(a, b) else TruncMod(a, b))
  {
    hide TruncDiv, TruncMod;
    if op.DIV? {
      QuotientBound(a, b);
    } else {
      TruncDivMod(a, b);
    }
  }

  lemma QuotientBound(a: int, b: int)
    requires b != 0
    ensures Abs(TruncDiv(a, b)) <= Abs(a)
    ensures TruncDiv(a, b) == Abs(a) > 0 ==> Abs(b) == 1 && (a < 0) == (b < 0)
  {
    DivideDown(Abs(a), Abs(b));
  }

  lemma DivideDown(x: nat, y: nat)
    requires y > 0
    ensures x / y <= x && (x / y == x > 0 ==> y == 1)
  {
    var q, r := x / y, x % y;
    assert x == y * q + r;
    Scaled(y - 1, q);
  }

  lemma Scaled(k: nat, q: nat)
    ensures (k + 1) * q >= q && (k > 0 && q > 0 ==> (k + 1) * q > q)
  {
    assert (k + 1) * q == k * q + q;
    if k > 0 && q > 0 {
      assert k * q > 0;
    }
  }

  /** The value if it is a number; the connectives and arithmetic take nothing else. */
  function Number(v: Option<Value>): Option<Int64>
  {
    if v.Some? && v.value.Int? then Some(v.value.n) else None
  }

  function NegOf(v: Option<Value>): Option<Value>
  {
    if Number(v).None? then None
    else match ArithValue(SUB, 0, Number(v).value) case Some(m) => Some(Int(m)) case None => None
  }

  function NotOf(v: Option<Value>): Option<Value>
  {
    if Number(v).None? then None else Some(Bool(Number(v).value == 0))
  }

  /** Both sides have been evaluated, whatever the first one came to. */
  function AndOf(a: Option<Value>, b: Option<Value>): Option<Value>
  {
    if Number(a).None? || Number(b).None? then None else Some(Bool(Number(a).value != 0 && Number(b).value != 0))
  }

  function OrOf(a: Option<Value>, b: Option<Value>): Option<Value>
  {
    if Number(a).None? || Number(b).None? then None else Some(Bool(Number(a).value != 0 || Number(b).value != 0))
  }

  function CompareOf(op: CompareOp, a: Option<Value>, b: Option<Value>): Option<Value>
  {
    if a.None? || b.None? then None
    else match CompareValues(a.value, b.value) case Some(c) => Some(Bool(CmpHolds(op, c))) case None => None
  }

  function ArithOf(op: ArithOp, a: Option<Value>, b: Option<Value>): Option<Value>
  {
    if Number(a).None? || Number(b).None? then None
    else match ArithValue(op, Number(a).value, Number(b).value) case Some(m) => Some(Int(m)) case None => None
  }

  /** ql_eval. None is each of its errors. */
  function Eval(e: Expr, env: Record): Option<Value>
    requires |env.cols| == |env.vals|
  {
    match e
    case Lit(v) => Some(v)
    case Sym(name) => Field(env, name)
    case Neg(kid) => NegOf(Eval(kid, env))
    case Not(kid) => NotOf(Eval(kid, env))
    case And(l, r) => AndOf(Eval(l, env), Eval(r, env))
    case Or(l, r) => OrOf(Eval(l, env), Eval(r, env))
    case Compare(op, l, r) => CompareOf(op, Eval(l, env), Eval(r, env))
    case Arith(op, l, r) => ArithOf(op, Eval(l, env), Eval(r, env))
    case Tup(_) => None
    case Star => None
    case Uninit => None
  }

  const NO_ROW: Record := Record([], [])

  /** What evaluates against no row evaluates the same against every row. */
  lemma {:induction false} ConstantEverywhere(e: Expr, env: Record)
    requires |env.cols| == |env.vals| && Eval(e, NO_ROW).Some?
    ensures Eval(e, env) == Eval(e, NO_ROW)
  {
    match e {
      case Neg(kid) => ConstantEverywhere(kid, env);
      case Not(kid) => ConstantEverywhere(kid, env);
      case And(l, r) =>
        ConstantEverywhere(l, env);
        ConstantEverywhere(r, env);
      case Or(l, r) =>
        ConstantEverywhere(l, env);
        ConstantEverywhere(r, env);
      case Compare(_, l, r) =>
        ConstantEverywhere(l, env);
        ConstantEverywhere(r, env);
      case Arith(_, l, r) =>
        ConstantEverywhere(l, env);
        ConstantEverywhere(r, env);
      case _ =>
    }
  }

  /** The filter keeps a row: it evaluates to a number other than 0. */
  ghost predicate Selects(filter: Expr, td: TableDef, row: Row)
    requires |row| == |td.cols|
  {
    filter.Uninit? ||
    (var v := Eval(filter, Record(td.cols, row)); v.Some? && v.value.Int? && v.value.n != 0)
  }

  /** The filter makes the statement fail on a row: an error, or not a boolean. */
  ghost predicate Fails(filter: Expr, td: TableDef, row: Row)
    requires |row| == |td.cols|
  {
    !filter.Uninit? && !(var v := Eval(filter, Record(td.cols, row)); v.Some? && v.value.Int?)
  }
}

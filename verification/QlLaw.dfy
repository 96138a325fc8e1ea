/** What filters mean, told apart from how they are evaluated: laws of the answers, of the connectives and of arithmetic. */
module QlLaws {
  import opened Bytes
  import opened OrderPreserving
  import opened Tables
  import opened TableAccess
  import opened ScanRows
  import opened QlEvals
  import opened QlRanges
  import opened QlOutcomes
  import opened StoreQueries

  // ------------------------------------------------------------ laws of values

  type Result = Option<Value>

  /** What an expression comes to in terms of its parts. */
  lemma EvalParts(op: CompareOp, aop: ArithOp, l: Expr, r: Expr, env: Record)
    requires |env.cols| == |env.vals|
    ensures Eval(And(l, r), env) == AndOf(Eval(l, env), Eval(r, env)) && Eval(Or(l, r), env) == OrOf(Eval(l, env), Eval(r, env))
    ensures Eval(Not(l), env) == NotOf(Eval(l, env)) && Eval(Neg(l), env) == NegOf(Eval(l, env))
    ensures Eval(Compare(op, l, r), env) == CompareOf(op, Eval(l, env), Eval(r, env))
    ensures Eval(Arith(aop, l, r), env) == ArithOf(aop, Eval(l, env), Eval(r, env))
  {
    hide AndOf, OrOf, NotOf, NegOf, CompareOf, ArithOf;
  }

  /** AND, OR and NOT need numbers, on both sides; 0 is false and everything else true. */
  lemma Connectives(a: Result, b: Result)
    ensures var numbers := a.Some? && a.value.Int? && b.Some? && b.value.Int?;
            && AndOf(a, b) == (if !numbers then None else Some(Int(if a.value.n == 0 || b.value.n == 0 then 0 else 1)))
            && OrOf(a, b) == (if !numbers then None else Some(Int(if a.value.n == 0 && b.value.n == 0 then 0 else 1)))
            && NotOf(a) == (if !(a.Some? && a.value.Int?) then None else Some(Int(if a.value.n == 0 then 1 else 0)))
  {
  }

  lemma DeMorgan(a: Result, b: Result)
    ensures NotOf(AndOf(a, b)) == OrOf(NotOf(a), NotOf(b)) && NotOf(OrOf(a, b)) == AndOf(NotOf(a), NotOf(b))
    ensures NotOf(NotOf(NotOf(a))) == NotOf(a)
  {
  }

  /** Numbers compare as numbers and strings byte by byte; a number and a string do not compare. */
  lemma ComparesAs(a: Result, b: Result)
    ensures a.Some? && b.Some? && a.value.Int? && b.value.Int? ==>
              && CompareOf(EQ, a, b) == Some(Int(if a.value.n == b.value.n then 1 else 0))
              && CompareOf(Less, a, b) == Some(Int(if a.value.n < b.value.n then 1 else 0))
    ensures a.Some? && b.Some? && a.value.Str? && b.value.Str? ==>
              && CompareOf(EQ, a, b) == Some(Int(if a.value.s == b.value.s then 1 else 0))
              && CompareOf(Less, a, b) == Some(Int(if Lt(a.value.s, b.value.s) then 1 else 0))
    ensures a.None? || b.None? || (a.value.Int? && b.value.Str?) || (a.value.Str? && b.value.Int?) ==> forall op :: CompareOf(op, a, b).None?
  {
    hide Lt;
    if a.Some? && b.Some? && a.value.Str? && b.value.Str? {
      LtTotal(a.value.s, b.value.s);
      LtIrreflexive(a.value.s);
    }
  }

  /** Each comparison is the negation of another, and the same one from the other side. */
  lemma Comparisons(a: Result, b: Result)
    ensures CompareOf(NE, a, b) == NotOf(CompareOf(EQ, a, b))
    ensures CompareOf(AtLeast, a, b) == NotOf(CompareOf(Less, a, b)) && CompareOf(AtMost, a, b) == NotOf(CompareOf(Greater, a, b))
    ensures CompareOf(Less, a, b) == CompareOf(Greater, b, a) && CompareOf(EQ, a, b) == CompareOf(EQ, b, a)
    ensures CompareOf(AtMost, a, b) == OrOf(CompareOf(Less, a, b), CompareOf(EQ, a, b))
  {
    hide Lt;
    if a.Some? && b.Some? && a.value.Str? && b.value.Str? {
      OneWay(a.value.s, b.value.s);
    }
  }

  lemma OneWay(s: Key, t: Key)
    ensures !(Lt(s, t) && Lt(t, s))
  {
    if Lt(s, t) && Lt(t, s) {
      LtTransitive(s, t, s);
      LtIrreflexive(s);
      assert false;
    }
  }

  const MIN: int := -0x8000_0000_0000_0000
  const MAX: int := 0x7fff_ffff_ffff_ffff

  /** A result is the exact integer, and an error exactly if that does not fit 64 bits. */
  lemma ArithmeticIsExact(a: Int64, b: Int64)
    ensures ArithOf(ADD, Some(Int(a)), Some(Int(b))) == (if MIN <= a + b <= MAX then Some(Int(a + b)) else None)
    ensures ArithOf(SUB, Some(Int(a)), Some(Int(b))) == (if MIN <= a - b <= MAX then Some(Int(a - b)) else None)
    ensures ArithOf(MUL, Some(Int(a)), Some(Int(b))) == (if MIN <= a * b <= MAX then Some(Int(a * b)) else None)
    ensures NegOf(Some(Int(a))) == (if a == MIN then None else Some(Int(-a)))
    ensures ArithOf(DIV, Some(Int(a)), Some(Int(b))).None? <==> b == 0 || (a == MIN && b == -1)
    ensures ArithOf(MOD, Some(Int(a)), Some(Int(b))).None? <==> b == 0 || (a == MIN && b == -1)
  {
    hide TruncDiv, TruncMod;
    if b != 0 && !(a == MIN && b == -1) {
      DivisionFits(DIV, a, b);
      DivisionFits(MOD, a, b);
    }
  }

  lemma SumIs(a: Int64, b: Int64)
    ensures ArithOf(ADD, Some(Int(a)), Some(Int(b))) == (if MIN <= a + b <= MAX then Some(Int(a + b)) else None)
  {
    ArithmeticIsExact(a, b);
  }

  lemma ProductIs(a: Int64, b: Int64)
    ensures ArithOf(MUL, Some(Int(a)), Some(Int(b))) == (if MIN <= a * b <= MAX then Some(Int(a * b)) else None)
  {
    ArithmeticIsExact(a, b);
  }

  lemma ArithmeticNeedsNumbers(op: ArithOp, a: Result, b: Result)
    requires !(a.Some? && a.value.Int?) || !(b.Some? && b.value.Int?)
    ensures ArithOf(op, a, b).None? && (!(a.Some? && a.value.Int?) ==> NegOf(a).None?)
  {
  }

  /** The quotient is toward zero: with a remainder smaller than the divisor, and of the dividend's sign. */
  lemma DividesTowardZero(a: Int64, b: Int64)
    requires b != 0 && !(a == MIN && b == -1)
    ensures var q, m := ArithOf(DIV, Some(Int(a)), Some(Int(b))), ArithOf(MOD, Some(Int(a)), Some(Int(b)));
            && q.Some? && q.value.Int? && m.Some? && m.value.Int? && a == q.value.n * b + m.value.n
            && Abs(m.value.n) < Abs(b) && (m.value.n == 0 || (m.value.n < 0 <==> a < 0))
  {
    hide TruncDiv, TruncMod;
    DivisionFits(DIV, a, b);
    DivisionFits(MOD, a, b);
    TruncDivMod(a, b);
  }

  // ------------------------------------------------------------ laws of expressions

  /** Subtracting what was added gives back what it was added to. */
  lemma SubAfterAdd(x: Expr, y: Expr, env: Record)
    requires |env.cols| == |env.vals| && Eval(Arith(ADD, x, y), env).Some?
    ensures Eval(Arith(SUB, Arith(ADD, x, y), y), env) == Eval(x, env)
  {
    hide Eval, ArithOf;
    EvalParts(EQ, ADD, x, y, env);
    EvalParts(EQ, SUB, Arith(ADD, x, y), y, env);
    NumbersOf(ADD, Eval(x, env), Eval(y, env));
    var a, b := Eval(x, env).value.n, Eval(y, env).value.n;
    ArithmeticIsExact(a, b);
    ArithmeticIsExact(a + b, b);
  }

  lemma NumbersOf(op: ArithOp, a: Result, b: Result)
    requires ArithOf(op, a, b).Some?
    ensures a.Some? && a.value.Int? && b.Some? && b.value.Int?
  {
  }

  /** Multiplying by a literal is adding again and again. */
  lemma TimesIsRepeatedAdd(x: Expr, k: Int64, env: Record)
    requires |env.cols| == |env.vals| && Eval(x, env).Some? && Eval(x, env).value.Int? && 0 <= k < MAX
    ensures Eval(Arith(MUL, x, Lit(Int(0))), env) == Some(Int(0))
    ensures Eval(Arith(MUL, x, Lit(Int(k + 1))), env).Some? ==>
              Eval(Arith(MUL, x, Lit(Int(k + 1))), env) == Eval(Arith(ADD, Arith(MUL, x, Lit(Int(k))), x), env)
  {
    var a := Eval(x, env).value.n;
    LitIs(Int(0), env);
    LitIs(Int(k), env);
    LitIs(Int(k + 1), env);
    hide Eval, ArithOf;
    EvalParts(EQ, MUL, x, Lit(Int(0)), env);
    EvalParts(EQ, MUL, x, Lit(Int(k)), env);
    EvalParts(EQ, MUL, x, Lit(Int(k + 1)), env);
    EvalParts(EQ, ADD, Arith(MUL, x, Lit(Int(k))), x, env);
    ProductIs(a, 0);
    ProductIs(a, k + 1);
    if Eval(Arith(MUL, x, Lit(Int(k + 1))), env).Some? {
      FewerTimes(a, k);
      ProductIs(a, k);
      SumIs(a * k, a);
    }
  }

  lemma LitIs(v: Value, env: Record)
    requires |env.cols| == |env.vals|
    ensures Eval(Lit(v), env) == Some(v)
  {
  }

  lemma FewerTimes(a: int, k: nat)
    requires MIN <= a * (k + 1) <= MAX
    ensures MIN <= a * k <= MAX && a * (k + 1) == a * k + a
  {
    assert a * (k + 1) == a * k + a;
    if a >= 0 {
      assert a * k >= 0;
    } else {
      assert (-a) * k >= 0;
    }
  }

  /** Quotient and remainder make up the dividend. */
  lemma QuotientAndRemainder(x: Expr, y: Expr, env: Record)
    requires |env.cols| == |env.vals| && Eval(Arith(DIV, x, y), env).Some?
    ensures Eval(Arith(ADD, Arith(MUL, Arith(DIV, x, y), y), Arith(MOD, x, y)), env) == Eval(x, env)
  {
    hide Eval, ArithOf;
    EvalParts(EQ, DIV, x, y, env);
    EvalParts(EQ, MOD, x, y, env);
    EvalParts(EQ, MUL, Arith(DIV, x, y), y, env);
    EvalParts(EQ, ADD, Arith(MUL, Arith(DIV, x, y), y), Arith(MOD, x, y), env);
    NumbersOf(DIV, Eval(x, env), Eval(y, env));
    var a, b := Eval(x, env).value.n, Eval(y, env).value.n;
    ArithmeticIsExact(a, b);
    DividesTowardZero(a, b);
    var q, m := Eval(Arith(DIV, x, y), env).value.n, Eval(Arith(MOD, x, y), env).value.n;
    Between0AndA(a, b, q, m);
    ProductIs(q, b);
    SumIs(q * b, m);
  }

  lemma Between0AndA(a: int, b: int, q: int, m: int)
    requires MIN <= a <= MAX && a == q * b + m && (m == 0 || (m < 0 <==> a < 0)) && Abs(m) < Abs(b)
    ensures MIN <= q * b <= MAX
  {
    if q * b != 0 {
      Multiple(q, b);
    }
  }

  /** A multiple of b that is not 0 is at least as far from 0 as b. */
  lemma Multiple(q: int, b: int)
    requires q * b != 0
    ensures Abs(q * b) >= Abs(b)
  {
    var x, y := Abs(q), Abs(b);
    if q < 0 {
      assert (-q) * b == -(q * b);
      SameSize(-q, b);
    } else {
      SameSize(q, b);
    }
    assert x * y == (x - 1) * y + y;
    assert (x - 1) * y >= 0;
  }

  lemma SameSize(q: nat, b: int)
    ensures Abs(q * b) == q * Abs(b)
  {
    if b < 0 {
      assert q * -b == -(q * b);
    }
  }

  // ------------------------------------------------------------ laws of answers

  /** The filter evaluates to a number on every row. */
  ghost predicate Judges(filter: Expr, td: TableDef, rows: Rows)
  {
    !filter.Uninit? && forall pk :: pk in rows ==> |pk + rows[pk]| == |td.cols| && !Fails(filter, td, pk + rows[pk])
  }

  /** r is the unwindowed answer to the filter. */
  ghost predicate Answered(r: ScanResult, filter: Expr, td: TableDef, rows: Rows)
    requires td.pkeys <= |td.cols| == |td.types|
  {
    Answers(r, filter, td, rows, 0, -1) && r.Rows?
  }

  lemma AnswerIsSelection(r: ScanResult, filter: Expr, td: TableDef, rows: Rows)
    requires TableOk(td) && RowsOk(td, rows) && td.pkeys <= |td.cols| == |td.types| && Answered(r, filter, td, rows)
    ensures r.Rows? && NoRepeats(r.out)
    ensures forall rec :: rec in r.out <==> exists pk :: pk in rows && RowKept(filter, td, rows, pk) && RowRecord(td, rows, pk) == rec
  {
    hide Answers, RowKept, NoRepeats;
    UnwindowedAnswer(r, filter, td, rows);
  }

  /** A row of the table is told by its record. */
  lemma RecordTellsRow(td: TableDef, rows: Rows, p: seq<Value>, q: seq<Value>)
    requires RowsOk(td, rows) && p in rows && q in rows && RowRecord(td, rows, p) == RowRecord(td, rows, q)
    ensures p == q
  {
    assert p == (p + rows[p])[..td.pkeys] && q == (q + rows[q])[..td.pkeys];
  }

  lemma RecordsTellRows(td: TableDef, rows: Rows)
    requires RowsOk(td, rows)
    ensures forall p, q :: p in rows && q in rows && RowRecord(td, rows, p) == RowRecord(td, rows, q) ==> p == q
  {
    hide RowRecord, RowsOk;
    forall p, q | p in rows && q in rows && RowRecord(td, rows, p) == RowRecord(td, rows, q)
      ensures p == q
    {
      RecordTellsRow(td, rows, p, q);
    }
  }

  lemma ConnectedRow(l: Expr, r: Expr, td: TableDef, row: Row)
    requires |row| == |td.cols| && !l.Uninit? && !r.Uninit?
    ensures Fails(Or(l, r), td, row) <==> Fails(l, td, row) || Fails(r, td, row)
    ensures Fails(And(l, r), td, row) <==> Fails(l, td, row) || Fails(r, td, row)
    ensures Fails(Not(l), td, row) <==> Fails(l, td, row)
    ensures !Fails(l, td, row) && !Fails(r, td, row) ==>
              && (Selects(Or(l, r), td, row) <==> Selects(l, td, row) || Selects(r, td, row))
              && (Selects(And(l, r), td, row) <==> Selects(l, td, row) && Selects(r, td, row))
    ensures !Fails(l, td, row) ==> (Selects(Not(l), td, row) <==> !Selects(l, td, row))
  {
    var env := Record(td.cols, row);
    hide Eval, AndOf, OrOf, NotOf;
    EvalParts(EQ, ADD, l, r, env);
    Connectives(Eval(l, env), Eval(r, env));
  }

  /** Where no row fails, l OR r answers with the records of l and those of r. */
  lemma OrIsUnion(l: Expr, r: Expr, td: TableDef, rows: Rows, a: ScanResult, b: ScanResult, c: ScanResult)
    requires TableOk(td) && RowsOk(td, rows) && td.pkeys <= |td.cols| == |td.types| && Judges(l, td, rows) && Judges(r, td, rows)
    requires Answered(a, l, td, rows) && Answered(b, r, td, rows) && Answered(c, Or(l, r), td, rows)
    ensures NoRepeats(c.out) && forall rec :: rec in c.out <==> rec in a.out || rec in b.out
  {
    hide Answered, Selects, Fails, RowRecord, NoRepeats, TableOk, RowsOk;
    AnswerIsSelection(a, l, td, rows);
    AnswerIsSelection(b, r, td, rows);
    AnswerIsSelection(c, Or(l, r), td, rows);
    forall pk | pk in rows
      ensures RowKept(Or(l, r), td, rows, pk) <==> RowKept(l, td, rows, pk) || RowKept(r, td, rows, pk)
    {
      ConnectedRow(l, r, td, pk + rows[pk]);
    }
  }

  /** l AND r with the records that both answer with. */
  lemma AndIsIntersection(l: Expr, r: Expr, td: TableDef, rows: Rows, a: ScanResult, b: ScanResult, c: ScanResult)
    requires TableOk(td) && RowsOk(td, rows) && td.pkeys <= |td.cols| == |td.types| && Judges(l, td, rows) && Judges(r, td, rows)
    requires Answered(a, l, td, rows) && Answered(b, r, td, rows) && Answered(c, And(l, r), td, rows)
    ensures NoRepeats(c.out) && forall rec :: rec in c.out <==> rec in a.out && rec in b.out
  {
    hide Answered, Selects, Fails, NoRepeats, TableOk, RowsOk;
    AnswerIsSelection(a, l, td, rows);
    AnswerIsSelection(b, r, td, rows);
    AnswerIsSelection(c, And(l, r), td, rows);
    forall pk | pk in rows
      ensures RowKept(And(l, r), td, rows, pk) <==> RowKept(l, td, rows, pk) && RowKept(r, td, rows, pk)
    {
      ConnectedRow(l, r, td, pk + rows[pk]);
    }
    forall rec | rec in a.out && rec in b.out
      ensures rec in c.out
    {
      var p :| p in rows && RowKept(l, td, rows, p) && RowRecord(td, rows, p) == rec;
      var q :| q in rows && RowKept(r, td, rows, q) && RowRecord(td, rows, q) == rec;
      RecordTellsRow(td, rows, p, q);
    }
  }

  /** NOT with the records of the table that the filter does not answer with. */
  lemma NotIsComplement(f: Expr, td: TableDef, rows: Rows, a: ScanResult, c: ScanResult)
    requires TableOk(td) && RowsOk(td, rows) && td.pkeys <= |td.cols| == |td.types| && Judges(f, td, rows)
    requires Answered(a, f, td, rows) && Answered(c, Not(f), td, rows)
    ensures NoRepeats(c.out)
    ensures forall rec :: rec in c.out <==> (exists pk :: pk in rows && RowRecord(td, rows, pk) == rec) && rec !in a.out
  {
    hide Answered, Selects, Fails, NoRepeats, TableOk, RowsOk, RowRecord;
    AnswerIsSelection(a, f, td, rows);
    AnswerIsSelection(c, Not(f), td, rows);
    forall pk | pk in rows
      ensures RowKept(Not(f), td, rows, pk) <==> !RowKept(f, td, rows, pk)
    {
      ConnectedRow(f, f, td, pk + rows[pk]);
    }
    RecordsTellRows(td, rows);
  }

  /** Without a filter every row of the table is in the answer. */
  lemma NoFilterIsAll(td: TableDef, rows: Rows, w: ScanResult)
    requires TableOk(td) && RowsOk(td, rows) && td.pkeys <= |td.cols| == |td.types| && Answered(w, Uninit, td, rows)
    ensures NoRepeats(w.out) && forall rec :: rec in w.out <==> exists pk :: pk in rows && RowRecord(td, rows, pk) == rec
  {
    hide Answered, NoRepeats, TableOk;
    AnswerIsSelection(w, Uninit, td, rows);
  }

  // ------------------------------------------------------------ comparing a column

  /** What a comparison of a column with a constant says of the column's value. */
  predicate Meets(op: CompareOp, x: Value, v: Value)
  {
    match op
    case EQ => x == v
    case NE => x != v
    case Less => Smaller(x, v)
    case AtMost => Smaller(x, v) || x == v
    case Greater => Smaller(v, x)
    case AtLeast => Smaller(v, x) || x == v
  }

  predicate Smaller(x: Value, v: Value)
  {
    (x.Int? && v.Int? && x.n < v.n) || (x.Str? && v.Str? && Lt(x.s, v.s))
  }

  lemma ComparedColumn(op: CompareOp, c: Name, v: Value, td: TableDef, row: Row)
    requires TableOk(td) && RowOk(td, row) && |row| == |td.cols| == |td.types| && c in td.cols && v.Type() == td.types[ColIndex(td.cols, c)]
    ensures var f := Compare(op, Sym(c), Lit(v));
            !Fails(f, td, row) && (Selects(f, td, row) <==> Meets(op, row[ColIndex(td.cols, c)], v))
  {
    var env, x := Record(td.cols, row), row[ColIndex(td.cols, c)];
    assert Field(env, c) == Some(x);
    RowStorable(td, row);
    assert Types(row)[ColIndex(td.cols, c)] == x.Type();
    assert Eval(Sym(c), env) == Some(x) && Eval(Lit(v), env) == Some(v);
    hide Eval, CompareOf, Lt;
    EvalParts(op, ADD, Sym(c), Lit(v), env);
    ComparedValues(op, x, v);
  }

  lemma ComparedValues(op: CompareOp, x: Value, v: Value)
    requires x.Type() == v.Type() && !x.Err?
    ensures CompareOf(op, Some(x), Some(v)) == Some(Int(if Meets(op, x, v) then 1 else 0))
  {
    hide Lt;
    if x.Str? && v.Str? {
      LtTotal(x.s, v.s);
      LtIrreflexive(x.s);
      OneWay(x.s, v.s);
    }
  }

  /** The answer to a comparison of a column with a constant of its type: the rows whose value meets it. */
  lemma ColumnAnswer(op: CompareOp, c: Name, v: Value, td: TableDef, rows: Rows, a: ScanResult)
    requires TableOk(td) && RowsOk(td, rows) && td.pkeys <= |td.cols| == |td.types|
    requires c in td.cols && v.Type() == td.types[ColIndex(td.cols, c)] && Answered(a, Compare(op, Sym(c), Lit(v)), td, rows)
    ensures Judges(Compare(op, Sym(c), Lit(v)), td, rows)
    ensures forall pk :: pk in rows ==> |pk + rows[pk]| == |td.cols|
    ensures forall rec :: rec in a.out <==>
              exists pk :: pk in rows && Meets(op, (pk + rows[pk])[ColIndex(td.cols, c)], v) && RowRecord(td, rows, pk) == rec
  {
    hide Answered, Selects, Fails, NoRepeats, TableOk, Meets;
    var f := Compare(op, Sym(c), Lit(v));
    AnswerIsSelection(a, f, td, rows);
    forall pk | pk in rows
      ensures |pk + rows[pk]| == |td.cols| && !Fails(f, td, pk + rows[pk])
      ensures RowKept(f, td, rows, pk) <==> Meets(op, (pk + rows[pk])[ColIndex(td.cols, c)], v)
    {
      ComparedColumn(op, c, v, td, pk + rows[pk]);
    }
  }

  /** <> answers with the records that = does not. */
  lemma NotEqualIsComplement(c: Name, v: Value, td: TableDef, rows: Rows, a: ScanResult, b: ScanResult)
    requires TableOk(td) && RowsOk(td, rows) && td.pkeys <= |td.cols| == |td.types|
    requires c in td.cols && v.Type() == td.types[ColIndex(td.cols, c)]
    requires Answered(a, Compare(EQ, Sym(c), Lit(v)), td, rows) && Answered(b, Compare(NE, Sym(c), Lit(v)), td, rows)
    ensures forall rec :: rec in b.out <==> (exists pk :: pk in rows && RowRecord(td, rows, pk) == rec) && rec !in a.out
  {
    hide Answers, TableOk, RowsOk, RowRecord;
    ColumnAnswer(EQ, c, v, td, rows, a);
    ColumnAnswer(NE, c, v, td, rows, b);
    RecordsTellRows(td, rows);
  }

  // ------------------------------------------------------------ the order of the answer

  /** The tree read starts with key1's columns: the primary key if that does, else the first of the shortest indexes. */
  lemma PickedIs(filter: Expr, td: TableDef, p: Plan)
    requires td.pkeys <= |td.cols| == |td.types| && IsPlan(filter, td, p)
    ensures var keys := PlanRange(filter, td, p.tree, p.fit).key1.cols;
            && (p.picked == -1 <==> keys <= td.cols[..td.pkeys])
            && (p.picked == -2 <==> !(keys <= td.cols[..td.pkeys]) && forall i :: 0 <= i < |td.indexes| ==> !(keys <= td.indexes[i]))
            && (p.picked >= 0 ==>
                  && p.picked < |td.indexes| && keys <= td.indexes[p.picked]
                  && forall i :: 0 <= i < |td.indexes| && keys <= td.indexes[i] ==>
                       |td.indexes[p.picked]| < |td.indexes[i]| || (|td.indexes[p.picked]| == |td.indexes[i]| && p.picked <= i))
  {
    hide Best, FitIs, Narrowed, Collect, PlanRange;
    IsPrefixIs(td, PlanRange(filter, td, p.tree, p.fit).key1.cols);
  }

  /** Of two indexes that start with the columns a range is narrowed by, the rows come in the order of the shorter. */
  lemma ShorterIndexOrders(filter: Expr, td: TableDef, rows: Rows, p: Plan, pks: seq<seq<Value>>, short: nat, long: nat)
    requires td.pkeys <= |td.cols| == |td.types| && Visits(filter, td, rows, p, pks)
    requires short < |td.indexes| && long < |td.indexes| && |td.indexes[short]| < |td.indexes[long]|
    requires var keys := PlanRange(filter, td, p.tree, p.fit).key1.cols;
             keys <= td.indexes[short] && keys <= td.indexes[long] && !(keys <= td.cols[..td.pkeys])
             && forall i :: 0 <= i < |td.indexes| && i != short && i != long ==> !(keys <= td.indexes[i])
    ensures p.picked == short
    ensures PlanRange(filter, td, p.tree, p.fit).cmp1.Forward() ==> InOrder(td, rows, short, true, pks)
  {
    hide Best, FitIs, Narrowed, Collect, PlanRange, InOrder, NoRepeats, InBounds;
    PickedIs(filter, td, p);
  }
}

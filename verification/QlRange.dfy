/** From a WHERE filter to the range of one tree that still holds every row it keeps (src/ql/ql_range.cpp). */
module QlRanges {
  import opened Bytes
  import opened Iterators
  import opened OrderPreserving
  import opened RowCodec
  import opened Tables
  import opened Scans
  import opened ScanRows
  import opened QlEvals

  /** One end of a column's range; open for > and <. */
  datatype Limit = Limit(v: Value, open: bool)

  /** What is known of one column's value: HoldsCol says which values meet it. */
  datatype ColBound = ColBound(eq: Option<Value>, lo: Option<Limit>, hi: Option<Limit>)

  const NO_BOUND := ColBound(None, None, None)

  type Bounds = map<Name, ColBound>

  /** x Flip(op) y means y op x. */
  function Flip(op: CompareOp): CompareOp
  {
    match op
    case Less => Greater
    case AtMost => AtLeast
    case Greater => Less
    case AtLeast => AtMost
    case _ => op
  }

  /** The first equality stays; of two limits the tighter one does. */
  function AddBound(op: CompareOp, v: Value, b: ColBound): ColBound
  {
    match op
    case EQ => if b.eq.None? then b.(eq := Some(v)) else b
    case Greater => if b.lo.None? || ValueLt(b.lo.value.v, v) then b.(lo := Some(Limit(v, true))) else b
    case AtLeast => if b.lo.None? || ValueLt(b.lo.value.v, v) then b.(lo := Some(Limit(v, false))) else b
    case Less => if b.hi.None? || ValueLt(v, b.hi.value.v) then b.(hi := Some(Limit(v, true))) else b
    case AtMost => if b.hi.None? || ValueLt(v, b.hi.value.v) then b.(hi := Some(Limit(v, false))) else b
    case NE => b
  }

  /** A comparison of a column with a constant: the column, the operator with the column first, the constant. */
  datatype Term = NotATerm | Term(col: Name, op: CompareOp, v: Value)

  function TermOf(e: Expr, td: TableDef): Term
    requires |td.cols| == |td.types|
  {
    if !e.Compare? || e.op.NE? then NotATerm
    else
      var (sym, val, op) := if e.l.Sym? then (e.l, e.r, e.op) else (e.r, e.l, Flip(e.op));
      if !sym.Sym? || sym.name !in td.cols then NotATerm
      else
        match Eval(val, NO_ROW)
        case None => NotATerm
        case Some(v) => if v.Type() != td.types[ColIndex(td.cols, sym.name)] then NotATerm else Term(sym.name, op, v)
  }

  function BoundOf(b: Bounds, col: Name): ColBound
  {
    if col in b then b[col] else NO_BOUND
  }

  /** collect: only what is ANDed at the top narrows; anything else is ignored. */
  function Collect(e: Expr, td: TableDef, b: Bounds): Bounds
    requires |td.cols| == |td.types|
  {
    if e.And? then Collect(e.r, td, Collect(e.l, td, b))
    else
      match TermOf(e, td)
      case NotATerm => b
      case Term(col, op, v) => b[col := AddBound(op, v, BoundOf(b, col))]
  }

  // ------------------------------------------------------------ bounds hold for rows the filter keeps

  predicate LimitTyped(l: Option<Limit>, t: Type)
  {
    l.Some? ==> l.value.v.Type() == t
  }

  predicate ColTyped(b: ColBound, t: Type)
  {
    (b.eq.Some? ==> b.eq.value.Type() == t) && LimitTyped(b.lo, t) && LimitTyped(b.hi, t)
  }

  ghost predicate BoundsTyped(td: TableDef, b: Bounds)
    requires |td.cols| == |td.types|
  {
    forall c :: c in b ==> c in td.cols && ColTyped(b[c], td.types[ColIndex(td.cols, c)])
  }

  predicate HoldsCol(b: ColBound, x: Value)
  {
    && (b.eq.Some? ==> x == b.eq.value)
    && (b.lo.Some? ==> if b.lo.value.open then ValueLt(b.lo.value.v, x) else !ValueLt(x, b.lo.value.v))
    && (b.hi.Some? ==> if b.hi.value.open then ValueLt(x, b.hi.value.v) else !ValueLt(b.hi.value.v, x))
  }

  ghost predicate Holds(td: TableDef, b: Bounds, row: Row)
    requires |row| == |td.cols|
  {
    forall c :: c in b && c in td.cols ==> HoldsCol(b[c], row[ColIndex(td.cols, c)])
  }

  /** What the comparison op says of x against v, for values of one type. */
  predicate Relates(op: CompareOp, x: Value, v: Value)
  {
    match op
    case EQ => x == v
    case NE => x != v
    case Less => ValueLt(x, v)
    case AtMost => !ValueLt(v, x)
    case Greater => ValueLt(v, x)
    case AtLeast => !ValueLt(x, v)
  }

  lemma AddedHolds(op: CompareOp, v: Value, b: ColBound, x: Value)
    requires HoldsCol(b, x) && Relates(op, x, v)
    ensures HoldsCol(AddBound(op, v, b), x)
  {
  }

  lemma AddedTyped(op: CompareOp, v: Value, b: ColBound, t: Type)
    requires ColTyped(b, t) && v.Type() == t
    ensures ColTyped(AddBound(op, v, b), t)
  {
  }

  /** A comparison that evaluates to true relates the column to the constant as its term says. */
  lemma TermRelates(e: Expr, td: TableDef, row: Row)
    requires TableOk(td) && RowOk(td, row) && |row| == |td.cols| && TermOf(e, td).Term?
    requires Eval(e, Record(td.cols, row)) == Some(Bool(true))
    ensures var t := TermOf(e, td);
            t.col in td.cols && t.v.Type() == td.types[ColIndex(td.cols, t.col)]
            && Relates(t.op, row[ColIndex(td.cols, t.col)], t.v)
  {
    var env := Record(td.cols, row);
    var (sym, val) := if e.l.Sym? then (e.l, e.r) else (e.r, e.l);
    ConstantEverywhere(val, env);
    var x := row[ColIndex(td.cols, sym.name)];
    assert Field(env, sym.name) == Some(x) && Eval(sym, env) == Some(x);
    RowStorable(td, row);
    assert Types(row)[ColIndex(td.cols, sym.name)] == x.Type();
    ValuesTotal(x, Eval(val, NO_ROW).value);
    LtIsStrictTotalOrder();
  }

  lemma ComparedTrue(e: Expr, env: Record, n: Int64)
    requires |env.cols| == |env.vals| && e.Compare? && Eval(e, env) == Some(Int(n)) && n != 0
    ensures Eval(e, env) == Some(Bool(true))
  {
  }

  lemma {:induction false} CollectSound(e: Expr, td: TableDef, b: Bounds, row: Row, n: Int64)
    requires TableOk(td) && RowOk(td, row) && |row| == |td.cols| && Holds(td, b, row)
    requires Eval(e, Record(td.cols, row)) == Some(Int(n)) && n != 0
    ensures Holds(td, Collect(e, td, b), row)
  {
    var env := Record(td.cols, row);
    if e.And? {
      CollectSound(e.l, td, b, row, Eval(e.l, env).value.n);
      CollectSound(e.r, td, Collect(e.l, td, b), row, Eval(e.r, env).value.n);
    } else if TermOf(e, td).Term? {
      var t := TermOf(e, td);
      ComparedTrue(e, env, n);
      TermRelates(e, td, row);
      AddedHolds(t.op, t.v, BoundOf(b, t.col), row[ColIndex(td.cols, t.col)]);
    }
  }

  lemma {:induction false} CollectTyped(e: Expr, td: TableDef, b: Bounds)
    requires |td.cols| == |td.types| && BoundsTyped(td, b)
    ensures BoundsTyped(td, Collect(e, td, b))
  {
    if e.And? {
      CollectTyped(e.l, td, b);
      CollectTyped(e.r, td, Collect(e.l, td, b));
    } else if TermOf(e, td).Term? {
      var t := TermOf(e, td);
      AddedTyped(t.op, t.v, BoundOf(b, t.col), td.types[ColIndex(td.cols, t.col)]);
    }
  }

  // ------------------------------------------------------------ choosing the tree

  /** The first eq columns have equalities, the one behind them not; range says whether that one has a limit. */
  datatype Fit = Fit(eq: nat, range: bool)
  {
    function Score(): nat { eq * 2 + if range then 1 else 0 }
  }

  predicate HasEq(b: Bounds, col: Name)
  {
    BoundOf(b, col).eq.Some?
  }

  predicate HasLimit(b: Bounds, col: Name)
  {
    BoundOf(b, col).lo.Some? || BoundOf(b, col).hi.Some?
  }

  predicate FitIs(cols: seq<Name>, b: Bounds, f: Fit)
  {
    && f.eq <= |cols| && (forall i :: 0 <= i < f.eq ==> HasEq(b, cols[i]))
    && (f.eq < |cols| ==> !HasEq(b, cols[f.eq]))
    && (f.range <==> f.eq < |cols| && HasLimit(b, cols[f.eq]))
  }

  method FitCols(cols: seq<Name>, b: Bounds) returns (f: Fit)
    ensures FitIs(cols, b, f)
  {
    var eq := 0;
    while eq < |cols|
      invariant 0 <= eq <= |cols| && forall i :: 0 <= i < eq ==> HasEq(b, cols[i])
    {
      if cols[eq] !in b || b[cols[eq]].eq.None? {
        break;
      }
      eq := eq + 1;
    }
    f := Fit(eq, eq < |cols| && cols[eq] in b && (b[cols[eq]].lo.Some? || b[cols[eq]].hi.Some?));
  }

  lemma FitIsUnique(cols: seq<Name>, b: Bounds, f: Fit, g: Fit)
    requires FitIs(cols, b, f) && FitIs(cols, b, g)
    ensures f == g
  {
    var x, y := f.eq, g.eq;
    assert x < |cols| ==> !HasEq(b, cols[x]);
    assert y < |cols| ==> !HasEq(b, cols[y]);
  }

  /** The first tree of the highest score, the primary key counting as the very first. */
  ghost predicate Best(td: TableDef, b: Bounds, tree: int, f: Fit)
    requires td.pkeys <= |td.cols|
  {
    && -1 <= tree < |td.indexes| && FitIs(TreeCols(td, tree), b, f)
    && (forall g :: FitIs(Pk(td), b, g) ==> g.Score() <= f.Score() && (tree != -1 ==> g.Score() < f.Score()))
    && (forall i, g :: 0 <= i < |td.indexes| && FitIs(td.indexes[i], b, g) ==>
          g.Score() <= f.Score() && (i < tree ==> g.Score() < f.Score()))
  }

  method BestTree(td: TableDef, b: Bounds) returns (tree: int, best: Fit)
    requires td.pkeys <= |td.cols|
    ensures Best(td, b, tree, best)
  {
    hide FitIs;
    var pk := FitCols(Pk(td), b);
    PkUnique(td, b, pk);
    tree, best := -1, pk;
    for i := 0 to |td.indexes|
      invariant -1 <= tree < i && FitIs(TreeCols(td, tree), b, best)
      invariant pk.Score() <= best.Score() && (tree != -1 ==> pk.Score() < best.Score())
      invariant forall j, g :: 0 <= j < i && FitIs(td.indexes[j], b, g) ==>
                  g.Score() <= best.Score() && (j < tree ==> g.Score() < best.Score())
    {
      var f := FitCols(td.indexes[i], b);
      forall g | FitIs(td.indexes[i], b, g)
        ensures g == f
      {
        FitIsUnique(td.indexes[i], b, f, g);
      }
      if f.Score() > best.Score() {
        best := f;
        tree := i;
      }
    }
  }

  lemma PkUnique(td: TableDef, b: Bounds, pk: Fit)
    requires td.pkeys <= |td.cols| && FitIs(Pk(td), b, pk)
    ensures forall g :: FitIs(Pk(td), b, g) ==> g == pk
  {
    forall g | FitIs(Pk(td), b, g)
      ensures g == pk
    {
      FitIsUnique(Pk(td), b, pk, g);
    }
  }

  // ------------------------------------------------------------ the range

  /** Two comparisons with records of the same width each, as Scanner's constructor takes them. */
  datatype Range = Range(cmp1: Cmp, cmp2: Cmp, key1: Record, key2: Record)
  {
    predicate Parallel()
    {
      |key1.cols| == |key1.vals| && |key2.cols| == |key2.vals|
    }
  }

  /** Every row lies within these bounds (WholeHolds); Chosen picks the primary key for them. */
  const WHOLE := Range(GE, LE, Record([], []), Record([], []))

  function EqVals(cols: seq<Name>, b: Bounds): (vs: seq<Value>)
    requires forall i :: 0 <= i < |cols| ==> HasEq(b, cols[i])
    ensures |vs| == |cols|
  {
    seq(|cols|, i requires 0 <= i < |cols| => assert HasEq(b, cols[i]); BoundOf(b, cols[i]).eq.value)
  }

  /** The range for the columns cols, of which f says how much is pinned down. */
  function RangeFor(cols: seq<Name>, b: Bounds, f: Fit): Range
    requires FitIs(cols, b, f)
  {
    var eqCols, eqVals := cols[..f.eq], EqVals(cols[..f.eq], b);
    if !f.range then Range(GE, LE, Record(eqCols, eqVals), Record(eqCols, eqVals))
    else
      var col := cols[f.eq];
      var c := BoundOf(b, col);
      Range(if c.lo.Some? && c.lo.value.open then GT else GE,
            if c.hi.Some? && c.hi.value.open then LT else LE,
            if c.lo.Some? then Record(eqCols + [col], eqVals + [c.lo.value.v]) else Record(eqCols, eqVals),
            if c.hi.Some? then Record(eqCols + [col], eqVals + [c.hi.value.v]) else Record(eqCols, eqVals))
  }

  /** ql_range's answer, given the tree it found best. */
  function Narrowed(td: TableDef, filter: Expr, b: Bounds, tree: int, f: Fit): Range
    requires td.pkeys <= |td.cols| && -1 <= tree < |td.indexes| && FitIs(TreeCols(td, tree), b, f)
  {
    if filter.Uninit? || b == map[] || f.Score() == 0 then WHOLE
    else
      var r := RangeFor(TreeCols(td, tree), b, f);
      // Chosen(td, [], -1): with no column in key1 db_scan would check key2 against the primary key.
      if r.key1.cols == [] && tree != -1 then WHOLE else r
  }

  /** The range, with the tree and the fit it was made for. */
  method QlRange(filter: Expr, td: TableDef) returns (r: Range, tree: int, f: Fit)
    requires TableOk(td)
    ensures var b := Collect(filter, td, map[]); Best(td, b, tree, f) && r == Narrowed(td, filter, b, tree, f)
  {
    hide FitIs, Best, TableOk;
    TableAccess.TableSizes(td);
    var b := Collect(filter, td, map[]);
    tree, f := BestTree(td, b);
    BestFits(td, b, tree, f);
    r := WHOLE;
    if filter.Uninit? || b == map[] || f.Score() == 0 {
      return;
    }
    var cols := TreeCols(td, tree);
    FitInside(cols, b, f);
    var key1, key2 := Record([], []), Record([], []);
    for i := 0 to f.eq
      invariant forall j :: 0 <= j < i ==> HasEq(b, cols[..i][j])
      invariant key1 == Record(cols[..i], EqVals(cols[..i], b)) && key2 == key1
    {
      assert HasEq(b, cols[i]);
      var c := b[cols[i]];
      assert cols[..i + 1] == cols[..i] + [cols[i]];
      key1 := Record(key1.cols + [cols[i]], key1.vals + [c.eq.value]);
      key2 := Record(key2.cols + [cols[i]], key2.vals + [c.eq.value]);
      assert key1.vals == EqVals(cols[..i + 1], b);
    }
    var cmp1, cmp2 := GE, LE;
    if f.range {
      var col := cols[f.eq];
      var c := b[col];
      if c.lo.Some? {
        key1 := Record(key1.cols + [col], key1.vals + [c.lo.value.v]);
        cmp1 := if c.lo.value.open then GT else GE;
      }
      if c.hi.Some? {
        key2 := Record(key2.cols + [col], key2.vals + [c.hi.value.v]);
        cmp2 := if c.hi.value.open then LT else LE;
      }
    }
    if key1.cols == [] && tree != -1 {
      return;
    }
    r := Range(cmp1, cmp2, key1, key2);
  }

  lemma BestFits(td: TableDef, b: Bounds, tree: int, f: Fit)
    requires td.pkeys <= |td.cols| && Best(td, b, tree, f)
    ensures -1 <= tree < |td.indexes| && FitIs(TreeCols(td, tree), b, f)
  {
  }

  lemma FitInside(cols: seq<Name>, b: Bounds, f: Fit)
    requires FitIs(cols, b, f)
    ensures f.eq <= |cols| && (forall i :: 0 <= i < f.eq ==> HasEq(b, cols[i]) && cols[i] in b)
    ensures f.range ==> f.eq < |cols| && cols[f.eq] in b && HasLimit(b, cols[f.eq])
    ensures forall i :: 0 <= i <= f.eq ==> forall j :: 0 <= j < i ==> HasEq(b, cols[..i][j])
  {
  }

  // ------------------------------------------------------------ soundness

  lemma LastDecides(p: seq<Value>, x: Value, y: Value)
    ensures TupleLt(p + [x], p + [y]) <==> ValueLt(x, y)
    ensures !TupleLt(p, p)
  {
    LastColumn(p, x, y);
    NotBelowItself(p);
  }

  lemma {:induction false} LastColumn(p: seq<Value>, x: Value, y: Value)
    ensures TupleLt(p + [x], p + [y]) <==> ValueLt(x, y)
  {
    LtIsStrictTotalOrder();
    if p == [] {
      assert p + [x] == [x] && p + [y] == [y];
    } else {
      assert (p + [x])[1..] == p[1..] + [x] && (p + [y])[1..] == p[1..] + [y];
      LastColumn(p[1..], x, y);
    }
  }

  /** Equality columns of a row that meets the bounds hold exactly the bounds' values. */
  lemma EqProjects(td: TableDef, cols: seq<Name>, b: Bounds, row: Row)
    requires |row| == |td.cols| && Holds(td, b, row)
    requires (forall c :: c in cols ==> c in td.cols) && forall i :: 0 <= i < |cols| ==> HasEq(b, cols[i])
    ensures Project(td, cols, row) == EqVals(cols, b)
  {
    forall i | 0 <= i < |cols|
      ensures Project(td, cols, row)[i] == EqVals(cols, b)[i]
    {
      assert HasEq(b, cols[i]) && cols[i] in b;
    }
  }

  lemma ProjectLast(td: TableDef, cols: seq<Name>, col: Name, row: Row)
    requires |row| == |td.cols| && (forall c :: c in cols ==> c in td.cols) && col in td.cols
    ensures forall c :: c in cols + [col] ==> c in td.cols
    ensures Project(td, cols + [col], row) == Project(td, cols, row) + [row[ColIndex(td.cols, col)]]
  {
  }

  lemma RangeHolds(td: TableDef, cols: seq<Name>, b: Bounds, f: Fit, row: Row)
    requires |row| == |td.cols| && Holds(td, b, row) && FitIs(cols, b, f) && forall c :: c in cols ==> c in td.cols
    ensures var r := RangeFor(cols, b, f);
            && r.Parallel() && (forall c :: c in r.key1.cols ==> c in td.cols) && (forall c :: c in r.key2.cols ==> c in td.cols)
            && InBounds(td, row, r.cmp1, r.key1, r.cmp2, r.key2)
  {
    hide TupleLt, Project, EqVals;
    FitInside(cols, b, f);
    var eqCols := cols[..f.eq];
    EqProjects(td, eqCols, b, row);
    var eqs := EqVals(eqCols, b);
    NotBelowItself(eqs);
    if f.range {
      var col := cols[f.eq];
      var c, x := BoundOf(b, col), row[ColIndex(td.cols, col)];
      ProjectLast(td, eqCols, col, row);
      if c.lo.Some? {
        LastDecides(eqs, x, c.lo.value.v);
        LastDecides(eqs, c.lo.value.v, x);
      }
      if c.hi.Some? {
        LastDecides(eqs, x, c.hi.value.v);
        LastDecides(eqs, c.hi.value.v, x);
      }
    }
  }

  /** Narrowing never loses a row: whatever the filter keeps lies within both bounds of its range. */
  lemma NarrowingIsSound(filter: Expr, td: TableDef, tree: int, f: Fit, row: Row)
    requires TableOk(td) && RowOk(td, row) && |row| == |td.cols| && Selects(filter, td, row)
    requires Best(td, Collect(filter, td, map[]), tree, f)
    ensures -1 <= tree < |td.indexes| && FitIs(TreeCols(td, tree), Collect(filter, td, map[]), f)
    ensures var r := Narrowed(td, filter, Collect(filter, td, map[]), tree, f);
            && r.Parallel() && (forall c :: c in r.key1.cols ==> c in td.cols) && (forall c :: c in r.key2.cols ==> c in td.cols)
            && InBounds(td, row, r.cmp1, r.key1, r.cmp2, r.key2)
  {
    hide Best, FitIs, InBounds, RangeFor, Collect, TableOk, RowOk;
    TableAccess.TableSizes(td);
    var b := Collect(filter, td, map[]);
    BestFits(td, b, tree, f);
    WholeHolds(td, row);
    if !filter.Uninit? {
      CollectSound(filter, td, map[], row, Eval(filter, Record(td.cols, row)).value.n);
      TreeKnown(td, tree);
      RangeHolds(td, TreeCols(td, tree), b, f, row);
    }
  }

  lemma WholeHolds(td: TableDef, row: Row)
    requires |row| == |td.cols|
    ensures InBounds(td, row, GE, Record([], []), LE, Record([], []))
  {
  }

  // ------------------------------------------------------------ when the range is accepted

  /** Each bound of the range names columns of the best tree from the first on, with values of their types. */
  lemma NarrowedFits(filter: Expr, td: TableDef, tree: int, f: Fit)
    requires TableOk(td) && Best(td, Collect(filter, td, map[]), tree, f)
    ensures -1 <= tree < |td.indexes| && FitIs(TreeCols(td, tree), Collect(filter, td, map[]), f)
    ensures var r := Narrowed(td, filter, Collect(filter, td, map[]), tree, f);
            && r.Parallel() && r.cmp1.Forward() && !r.cmp2.Forward()
            && BoundFits(td, TreeCols(td, tree), r.key1) && BoundFits(td, TreeCols(td, tree), r.key2)
            && (r.key1.cols == [] ==> r == WHOLE || tree == -1)
  {
    hide Best, FitIs, Collect, TableOk, RangeFor, BoundFits;
    TableAccess.TableSizes(td);
    var b := Collect(filter, td, map[]);
    BestFits(td, b, tree, f);
    CollectTyped(filter, td, map[]);
    TreeKnown(td, tree);
    RangeFits(td, TreeCols(td, tree), b, f);
    WholeFits(td, TreeCols(td, tree));
  }

  lemma WholeFits(td: TableDef, cols: seq<Name>)
    requires |td.cols| == |td.types|
    ensures BoundFits(td, cols, Record([], []))
  {
  }

  lemma RangeFits(td: TableDef, cols: seq<Name>, b: Bounds, f: Fit)
    requires |td.cols| == |td.types| && BoundsTyped(td, b) && FitIs(cols, b, f) && forall c :: c in cols ==> c in td.cols
    ensures var r := RangeFor(cols, b, f);
            && r.Parallel() && r.cmp1.Forward() && !r.cmp2.Forward()
            && BoundFits(td, cols, r.key1) && BoundFits(td, cols, r.key2)
  {
    FitInside(cols, b, f);
    var r := RangeFor(cols, b, f);
    if f.range {
      assert cols[..f.eq + 1] == cols[..f.eq] + [cols[f.eq]];
      assert cols[f.eq] in b && cols[f.eq] in cols;
    }
    forall i | 0 <= i < f.eq
      ensures cols[i] in td.cols && EqVals(cols[..f.eq], b)[i].Type() == td.types[ColIndex(td.cols, cols[i])]
    {
      assert HasEq(b, cols[i]) && cols[i] in b;
    }
  }

  /**
   * db_scan accepts the range exactly when the tree it picks by key1 also starts with key2's columns. The tree need not
   * be the one the range was made for.
   */
  lemma AcceptedExactlyIf(filter: Expr, td: TableDef, tree: int, f: Fit, chosen: int)
    requires TableOk(td) && Best(td, Collect(filter, td, map[]), tree, f)
    ensures -1 <= tree < |td.indexes| && FitIs(TreeCols(td, tree), Collect(filter, td, map[]), f)
    ensures var r := Narrowed(td, filter, Collect(filter, td, map[]), tree, f);
            r.Parallel() && (Chosen(td, r.key1.cols, chosen) ==>
              && -1 <= chosen < |td.indexes|
              && (Accepts(td, chosen, r.cmp1, r.cmp2, r.key1, r.key2) <==> IsPrefix(TreeCols(td, chosen), r.key2.cols)))
  {
    hide Best, FitIs, Collect, Narrowed, ColIndex;
    NarrowedFits(filter, td, tree, f);
    var r := Narrowed(td, filter, Collect(filter, td, map[]), tree, f);
    if Chosen(td, r.key1.cols, chosen) {
      ChosenStarts(td, tree, r.key1, chosen);
      SameTypes(td, TreeCols(td, tree), TreeCols(td, chosen), r.key1);
      SameTypes(td, TreeCols(td, tree), TreeCols(td, chosen), r.key2);
    }
  }

  /** Whether values fit does not depend on which tree's columns they are a prefix of. */
  lemma SameTypes(td: TableDef, a: seq<Name>, b: seq<Name>, key: Record)
    requires |td.cols| == |td.types| && |key.cols| == |key.vals| && BoundFits(td, a, key)
    ensures BoundFits(td, b, key) <==> IsPrefix(b, key.cols)
  {
  }

  lemma ChosenStarts(td: TableDef, tree: int, key: Record, chosen: int)
    requires TableOk(td) && -1 <= tree < |td.indexes| && |key.cols| == |key.vals| && BoundFits(td, TreeCols(td, tree), key)
    requires Chosen(td, key.cols, chosen)
    ensures -1 <= chosen < |td.indexes| && IsPrefix(TreeCols(td, chosen), key.cols)
  {
  }

  /** So it is accepted whenever key2 names no more columns than key1: with a lower bound, or equalities alone. */
  lemma AcceptedWhenKey2IsPrefix(filter: Expr, td: TableDef, tree: int, f: Fit, chosen: int)
    requires TableOk(td) && Best(td, Collect(filter, td, map[]), tree, f)
    ensures -1 <= tree < |td.indexes| && FitIs(TreeCols(td, tree), Collect(filter, td, map[]), f)
    ensures var r := Narrowed(td, filter, Collect(filter, td, map[]), tree, f);
            r.Parallel() && (Chosen(td, r.key1.cols, chosen) && IsPrefix(r.key1.cols, r.key2.cols) ==>
              -1 <= chosen < |td.indexes| && Accepts(td, chosen, r.cmp1, r.cmp2, r.key1, r.key2))
  {
    hide Best, FitIs, Collect, Narrowed, BoundFits;
    AcceptedExactlyIf(filter, td, tree, f, chosen);
    var r := Narrowed(td, filter, Collect(filter, td, map[]), tree, f);
    NarrowedFits(filter, td, tree, f);
    if Chosen(td, r.key1.cols, chosen) && IsPrefix(r.key1.cols, r.key2.cols) {
      ChosenStarts(td, tree, r.key1, chosen);
      var long, k1, k2 := TreeCols(td, chosen), r.key1.cols, r.key2.cols;
      assert long[..|k2|] == long[..|k1|][..|k2|];
    }
  }

  /**
   * Whether db_scan accepts the range a filter is narrowed to: the tree picked by key1 alone starts with key2's columns
   * too.
   */
  ghost predicate RangeAccepted(filter: Expr, td: TableDef)
    requires td.pkeys <= |td.cols| == |td.types|
  {
    exists tree, f, w :: Best(td, Collect(filter, td, map[]), tree, f) && AcceptedBy(filter, td, tree, f, w)
  }

  ghost predicate AcceptedBy(filter: Expr, td: TableDef, tree: int, f: Fit, w: int)
    requires td.pkeys <= |td.cols| == |td.types| && Best(td, Collect(filter, td, map[]), tree, f)
  {
    BestFits(td, Collect(filter, td, map[]), tree, f);
    var r := Narrowed(td, filter, Collect(filter, td, map[]), tree, f);
    Chosen(td, r.key1.cols, w) && IsPrefix(TreeCols(td, w), r.key2.cols)
  }

  /** The best tree against another: no lower score, and a higher one than any before it. */
  lemma BestBeats(td: TableDef, b: Bounds, tree: int, f: Fit, other: int, g: Fit)
    requires td.pkeys <= |td.cols| && Best(td, b, tree, f) && -1 <= other < |td.indexes| && FitIs(TreeCols(td, other), b, g)
    ensures g.Score() <= f.Score() && (other < tree ==> g.Score() < f.Score())
  {
    hide FitIs;
  }

  lemma BestIsUnique(td: TableDef, b: Bounds, tree: int, f: Fit, tree': int, f': Fit)
    requires td.pkeys <= |td.cols| && Best(td, b, tree, f) && Best(td, b, tree', f')
    ensures tree == tree' && f == f'
  {
    hide FitIs, Best;
    BestFits(td, b, tree, f);
    BestFits(td, b, tree', f');
    BestBeats(td, b, tree, f, tree', f');
    BestBeats(td, b, tree', f', tree, f);
    if tree == tree' {
      FitIsUnique(TreeCols(td, tree), b, f, f');
    }
  }

  /** The range was accepted exactly if the tree chosen for it accepts it. */
  lemma AcceptanceDecided(filter: Expr, td: TableDef, tree: int, f: Fit, w: int)
    requires TableOk(td) && Best(td, Collect(filter, td, map[]), tree, f)
    ensures td.pkeys <= |td.cols| == |td.types| && -1 <= tree < |td.indexes| && FitIs(TreeCols(td, tree), Collect(filter, td, map[]), f)
    ensures var r := Narrowed(td, filter, Collect(filter, td, map[]), tree, f);
            r.Parallel() && (Chosen(td, r.key1.cols, w) ==>
              (RangeAccepted(filter, td) <==> Accepts(td, w, r.cmp1, r.cmp2, r.key1, r.key2)))
  {
    hide Best, FitIs, Collect, TableOk, Narrowed, Accepts, Chosen, IsPrefix;
    TableAccess.TableSizes(td);
    NarrowedFits(filter, td, tree, f);
    AcceptedExactlyIf(filter, td, tree, f, w);
    var b := Collect(filter, td, map[]);
    var r := Narrowed(td, filter, b, tree, f);
    if Chosen(td, r.key1.cols, w) {
      if RangeAccepted(filter, td) {
        var tree', f', w' :| Best(td, b, tree', f') && AcceptedBy(filter, td, tree', f', w');
        BestIsUnique(td, b, tree, f, tree', f');
        ChosenIsUnique(td, r.key1.cols, w, w');
      }
      if Accepts(td, w, r.cmp1, r.cmp2, r.key1, r.key2) {
        assert AcceptedBy(filter, td, tree, f, w);
      }
    }
  }

  // ------------------------------------------------------------ the plan of a scan

  /** The tree a range is made for and how it fits, and the tree db_scan then reads. */
  datatype Plan = Plan(tree: int, fit: Fit, picked: int)

  /** The range that a filter is narrowed to. */
  ghost function PlanRange(filter: Expr, td: TableDef, tree: int, fit: Fit): Range
    requires td.pkeys <= |td.cols| == |td.types| && Best(td, Collect(filter, td, map[]), tree, fit)
  {
    BestFits(td, Collect(filter, td, map[]), tree, fit);
    Narrowed(td, filter, Collect(filter, td, map[]), tree, fit)
  }

  ghost predicate IsPlan(filter: Expr, td: TableDef, p: Plan)
    requires td.pkeys <= |td.cols| == |td.types|
  {
    && Best(td, Collect(filter, td, map[]), p.tree, p.fit)
    && Chosen(td, PlanRange(filter, td, p.tree, p.fit).key1.cols, p.picked)
  }

  /** A filter has one plan. */
  lemma PlanIsUnique(filter: Expr, td: TableDef, p: Plan, q: Plan)
    requires td.pkeys <= |td.cols| == |td.types| && IsPlan(filter, td, p) && IsPlan(filter, td, q)
    ensures p == q
  {
    hide Best, Collect, Narrowed, Chosen;
    BestIsUnique(td, Collect(filter, td, map[]), p.tree, p.fit, q.tree, q.fit);
    ChosenIsUnique(td, PlanRange(filter, td, p.tree, p.fit).key1.cols, p.picked, q.picked);
  }

  /** Whether the bounds of an accepted plan can be encoded; with columns of type ERROR that may throw. */
  ghost predicate PlanEncodes(filter: Expr, td: TableDef, p: Plan)
    requires td.pkeys <= |td.cols| == |td.types| && IsPlan(filter, td, p)
  {
    var r := PlanRange(filter, td, p.tree, p.fit);
    TableOk(td) && r.Parallel() && Starts(td, p.picked, r.cmp1, r.cmp2, r.key1, r.key2)
  }

  /** Whether the scan of an accepted range throws. */
  ghost predicate RangeThrows(filter: Expr, td: TableDef)
    requires td.pkeys <= |td.cols| == |td.types|
  {
    RangeAccepted(filter, td) && exists p :: IsPlan(filter, td, p) && !PlanEncodes(filter, td, p)
  }

  lemma ThrowsDecided(filter: Expr, td: TableDef, p: Plan)
    requires td.pkeys <= |td.cols| == |td.types| && IsPlan(filter, td, p)
    ensures RangeThrows(filter, td) <==> RangeAccepted(filter, td) && !PlanEncodes(filter, td, p)
  {
    hide IsPlan, PlanEncodes, RangeAccepted;
    if RangeThrows(filter, td) {
      var q :| IsPlan(filter, td, q) && !PlanEncodes(filter, td, q);
      PlanIsUnique(filter, td, p, q);
    }
  }

  lemma {:induction false} Padded(types: seq<Type>)
    requires forall i :: 0 <= i < |types| ==> types[i] != ERROR
    ensures Paddable(types)
  {
    if types != [] && types[0] == INT_64 {
      Padded(types[1..]);
    }
  }

  /** No scan of a table without columns of type ERROR throws. */
  lemma ThrowsOnlyWithErrorColumn(filter: Expr, td: TableDef)
    requires TableOk(td) && td.pkeys <= |td.cols| == |td.types| && forall i :: 0 <= i < |td.types| ==> td.types[i] != ERROR
    ensures !RangeThrows(filter, td)
  {
    hide Best, Collect, FitIs, Narrowed, BoundFits, Paddable, Chosen;
    if RangeThrows(filter, td) {
      var p :| IsPlan(filter, td, p) && !PlanEncodes(filter, td, p);
      var r := PlanRange(filter, td, p.tree, p.fit);
      AcceptanceDecided(filter, td, p.tree, p.fit, p.picked);
      BoundEncodes(td, p.picked, r.key1, r.cmp1);
      BoundEncodes(td, p.picked, r.key2, r.cmp2);
      assert false;
    }
  }

  lemma BoundEncodes(td: TableDef, tree: int, key: Record, cmp: Cmp)
    requires TableOk(td) && -1 <= tree < |td.indexes| && |key.cols| == |key.vals| && BoundFits(td, TreeCols(td, tree), key)
    requires forall i :: 0 <= i < |td.types| ==> td.types[i] != ERROR
    ensures Encodable(td, tree, key, cmp)
  {
    hide Paddable;
    BoundTyped(td, tree, key);
    var types := ColTypes(td, TreeCols(td, tree));
    forall i | 0 <= i < |key.vals|
      ensures !key.vals[i].Err?
    {
      assert Types(key.vals)[i] == types[i];
    }
    Padded(types[|key.vals|..]);
  }

  /** A scan of the whole table throws exactly if an ERROR column comes before the first string of the primary key. */
  lemma WholeScanThrowsExactlyIf(td: TableDef)
    requires TableOk(td)
    ensures td.pkeys <= |td.cols| == |td.types| && forall c :: c in Pk(td) ==> c in td.cols
    ensures RangeThrows(Uninit, td) <==> !Paddable(ColTypes(td, Pk(td)))
  {
    hide Best, Paddable;
    var p := Plan(-1, Fit(0, false), -1);
    NoBounds(td);
    assert Pk(td)[..0] == [];
    assert IsPlan(Uninit, td, p) && PlanRange(Uninit, td, -1, Fit(0, false)) == WHOLE;
    TreeKnown(td, -1);
    assert ColTypes(td, Pk(td))[0..] == ColTypes(td, Pk(td));
    PlanEncodesWhole(td, p);
    assert AcceptedBy(Uninit, td, -1, Fit(0, false), -1);
    ThrowsDecided(Uninit, td, p);
  }

  lemma PlanEncodesWhole(td: TableDef, p: Plan)
    requires TableOk(td) && td.pkeys <= |td.cols| == |td.types| && IsPlan(Uninit, td, p) && p.picked == -1
    requires PlanRange(Uninit, td, p.tree, p.fit) == WHOLE && ColTypes(td, Pk(td))[0..] == ColTypes(td, Pk(td))
    ensures PlanEncodes(Uninit, td, p) <==> Paddable(ColTypes(td, Pk(td)))
  {
    hide IsPlan, PlanRange, Paddable;
    assert TreeCols(td, -1) == Pk(td) && Pk(td)[..0] == [];
  }

  lemma NoBounds(td: TableDef)
    requires TableOk(td)
    ensures Collect(Uninit, td, map[]) == map[] && Best(td, map[], -1, Fit(0, false))
  {
    forall cols: seq<Name>, g | FitIs(cols, map[], g)
      ensures g == Fit(0, false)
    {
      assert g.eq > 0 ==> HasEq(map[], cols[0]);
    }
  }
}

/** How far a filter narrows what is read: exactly which bounds it gives, which tree, and which rows lie in the range. */
module QlNarrowings {
  import opened Bytes
  import opened OrderPreserving
  import opened RowCodec
  import opened Tables
  import opened ScanRows
  import opened QlEvals
  import opened QlRanges

  // ------------------------------------------------------------ bounds

  /**
   * One more comparison narrows a column to the values that meet both, but for a second equality and a limit at the
   * value of one already there, of which the first stays.
   */
  lemma AddBoundIsExact(op: CompareOp, v: Value, b: ColBound, x: Value)
    requires x.Type() == v.Type() && !v.Err? && ColTyped(b, v.Type())
    ensures op.NE? || (op.EQ? && b.eq.Some?) ==> AddBound(op, v, b) == b
    ensures op.EQ? && b.eq.None? ==> (HoldsCol(AddBound(op, v, b), x) <==> HoldsCol(b, x) && x == v)
    ensures (op.Greater? || op.AtLeast?) && !(b.lo.Some? && b.lo.value.v == v) ==>
              (HoldsCol(AddBound(op, v, b), x) <==> HoldsCol(b, x) && if op.Greater? then ValueLt(v, x) else !ValueLt(x, v))
    ensures (op.Less? || op.AtMost?) && !(b.hi.Some? && b.hi.value.v == v) ==>
              (HoldsCol(AddBound(op, v, b), x) <==> HoldsCol(b, x) && if op.Less? then ValueLt(x, v) else !ValueLt(v, x))
  {
    LtIsStrictTotalOrder();
    ValuesTotal(v, x);
    if b.lo.Some? {
      ValuesTotal(b.lo.value.v, v);
      ValuesTotal(b.lo.value.v, x);
    }
    if b.hi.Some? {
      ValuesTotal(b.hi.value.v, v);
      ValuesTotal(b.hi.value.v, x);
    }
  }

  /** Which comparisons narrow: those but <> of a column with what evaluates, against no row, to a value of its type. */
  lemma TermIs(op: CompareOp, c: Name, e: Expr, td: TableDef)
    requires |td.cols| == |td.types|
    ensures var v := Eval(e, NO_ROW);
            var narrows := !op.NE? && c in td.cols && v.Some? && v.value.Type() == td.types[ColIndex(td.cols, c)];
            var turned := match op case Less => Greater case AtMost => AtLeast case Greater => Less case AtLeast => AtMost case _ => op;
            && TermOf(Compare(op, Sym(c), e), td) == (if narrows then Term(c, op, v.value) else NotATerm)
            && (!e.Sym? ==> TermOf(Compare(op, e, Sym(c)), td) == (if narrows then Term(c, turned, v.value) else NotATerm))
  {
  }

  /** And narrows by both sides; nothing but comparisons does besides. */
  lemma CollectIs(e: Expr, td: TableDef, b: Bounds)
    requires |td.cols| == |td.types|
    ensures e.And? ==> Collect(e, td, b) == Collect(e.r, td, Collect(e.l, td, b))
    ensures !e.And? && !e.Compare? ==> Collect(e, td, b) == b
  {
    hide Eval, AddBound, BoundOf;
  }

  // ------------------------------------------------------------ the tree

  /** More equalities are better, and with as many a range behind them. */
  lemma ScoreIs(f: Fit, g: Fit)
    ensures f.Score() < g.Score() <==> f.eq < g.eq || (f.eq == g.eq && !f.range && g.range)
  {
  }

  /** The columns with an equality, up to the first without, and whether that one has a limit. */
  lemma FitIsExactly(cols: seq<Name>, b: Bounds, f: Fit)
    ensures FitIs(cols, b, f) <==>
              && f.eq <= |cols| && (forall i :: 0 <= i < f.eq ==> cols[i] in b && b[cols[i]].eq.Some?)
              && (f.eq < |cols| ==> !(cols[f.eq] in b && b[cols[f.eq]].eq.Some?))
              && (f.range <==> f.eq < |cols| && cols[f.eq] in b && (b[cols[f.eq]].lo.Some? || b[cols[f.eq]].hi.Some?))
  {
    if FitIs(cols, b, f) {
      assert forall i :: 0 <= i < f.eq ==> HasEq(b, cols[i]);
    }
  }

  /** No tree fits better, and none before it as well. */
  lemma BestIs(td: TableDef, b: Bounds, tree: int, f: Fit, other: int, g: Fit)
    requires td.pkeys <= |td.cols| && Best(td, b, tree, f) && -1 <= other < |td.indexes|
    requires FitIs(if other < 0 then td.cols[..td.pkeys] else td.indexes[other], b, g)
    ensures -1 <= tree < |td.indexes| && FitIs(if tree < 0 then td.cols[..td.pkeys] else td.indexes[tree], b, f)
    ensures !(f.eq < g.eq) && !(f.eq == g.eq && !f.range && g.range)
    ensures other < tree ==> g.eq < f.eq || (g.eq == f.eq && !g.range && f.range)
  {
    hide FitIs;
    ScoreIs(f, g);
    ScoreIs(g, f);
  }

  // ------------------------------------------------------------ the range

  lemma {:induction false} PrefixDecides(p: seq<Value>, q: seq<Value>, x: Value, y: Value)
    requires |p| == |q| && TupleLt(p, q)
    ensures TupleLt(p + [x], q + [y])
  {
    if p[0] == q[0] && TupleLt(p[1..], q[1..]) {
      PrefixDecides(p[1..], q[1..], x, y);
    }
    assert (p + [x])[1..] == p[1..] + [x] && (q + [y])[1..] == q[1..] + [y];
    assert (p + [x])[0] == p[0] && (q + [y])[0] == q[0];
  }

  /** Within both bounds the columns with equalities have exactly these values. */
  lemma SqueezedEqual(p: seq<Value>, eqs: seq<Value>, x: Value, lo: Option<Value>, hi: Option<Value>)
    requires Types(p) == Types(eqs) && Storable(p) && Storable(eqs)
    requires if lo.Some? then !TupleLt(p + [x], eqs + [lo.value]) else !TupleLt(p, eqs)
    requires if hi.Some? then !TupleLt(eqs + [hi.value], p + [x]) else !TupleLt(eqs, p)
    ensures p == eqs
  {
    hide TupleLt;
    TuplesTotal(p, eqs);
    if TupleLt(p, eqs) && lo.Some? {
      PrefixDecides(p, eqs, x, lo.value);
    }
    if TupleLt(eqs, p) && hi.Some? {
      PrefixDecides(eqs, p, hi.value, x);
    }
  }

  lemma TypedColumns(td: TableDef, cols: seq<Name>, b: Bounds, row: Row)
    requires TableOk(td) && RowOk(td, row) && |row| == |td.cols| == |td.types| && BoundsTyped(td, b)
    requires (forall c :: c in cols ==> c in td.cols) && forall i :: 0 <= i < |cols| ==> HasEq(b, cols[i])
    ensures Types(Project(td, cols, row)) == Types(EqVals(cols, b)) && Storable(Project(td, cols, row)) && Storable(EqVals(cols, b))
  {
    RowStorable(td, row);
    forall i | 0 <= i < |cols|
      ensures Project(td, cols, row)[i].Type() == EqVals(cols, b)[i].Type() && !Project(td, cols, row)[i].Err?
    {
      var k := ColIndex(td.cols, cols[i]);
      assert HasEq(b, cols[i]) && cols[i] in b && Types(row)[k] == td.types[k] == row[k].Type();
    }
    TypesStorable(Project(td, cols, row), EqVals(cols, b));
  }

  /**
   * The range for a tree that fits: exactly the rows with the equalities' values in the first columns and, if a range
   * column follows, a value within its limits there.
   */
  lemma RangeIsExactly(td: TableDef, cols: seq<Name>, b: Bounds, f: Fit, row: Row)
    requires TableOk(td) && RowOk(td, row) && |row| == |td.cols| == |td.types| && BoundsTyped(td, b)
    requires FitIs(cols, b, f) && forall c :: c in cols ==> c in td.cols
    ensures f.eq <= |cols| && (forall i :: 0 <= i < f.eq ==> cols[i] in td.cols && cols[i] in b && b[cols[i]].eq.Some?)
    ensures f.range ==> f.eq < |cols| && cols[f.eq] in td.cols && cols[f.eq] in b
    ensures var r := RangeFor(cols, b, f);
            && r.Parallel() && (forall c :: c in r.key1.cols ==> c in td.cols) && (forall c :: c in r.key2.cols ==> c in td.cols)
            && (InBounds(td, row, r.cmp1, r.key1, r.cmp2, r.key2) <==>
                  && (forall i :: 0 <= i < f.eq ==> row[ColIndex(td.cols, cols[i])] == b[cols[i]].eq.value)
                  && (f.range ==> Within(b[cols[f.eq]], row[ColIndex(td.cols, cols[f.eq])])))
  {
    hide TupleLt, TableOk, RowOk, Types, Storable, BoundsTyped;
    FitIsExactly(cols, b, f);
    FitInside(cols, b, f);
    var eqCols := cols[..f.eq];
    var eqs, p := EqVals(eqCols, b), Project(td, eqCols, row);
    TypedColumns(td, eqCols, b, row);
    assert p == eqs <==> forall i :: 0 <= i < f.eq ==> row[ColIndex(td.cols, cols[i])] == b[cols[i]].eq.value by {
      assert forall i :: 0 <= i < f.eq ==> p[i] == row[ColIndex(td.cols, cols[i])] && eqs[i] == b[cols[i]].eq.value;
    }
    NotBelowItself(eqs);
    if !f.range {
      TuplesTotal(p, eqs);
    } else {
      RangeColumn(td, cols, b, f, row, p, eqs);
    }
  }

  predicate Within(c: ColBound, x: Value)
  {
    && (c.lo.Some? ==> if c.lo.value.open then ValueLt(c.lo.value.v, x) else !ValueLt(x, c.lo.value.v))
    && (c.hi.Some? ==> if c.hi.value.open then ValueLt(x, c.hi.value.v) else !ValueLt(c.hi.value.v, x))
  }

  lemma RangeColumn(td: TableDef, cols: seq<Name>, b: Bounds, f: Fit, row: Row, p: seq<Value>, eqs: seq<Value>)
    requires |row| == |td.cols| && FitIs(cols, b, f) && f.range && f.eq < |cols| && cols[f.eq] in b
    requires (forall c :: c in cols ==> c in td.cols) && (forall j :: 0 <= j < f.eq ==> HasEq(b, cols[..f.eq][j]))
    requires p == Project(td, cols[..f.eq], row) && eqs == EqVals(cols[..f.eq], b)
    requires Types(p) == Types(eqs) && Storable(p) && Storable(eqs)
    ensures var r := RangeFor(cols, b, f);
            && r.Parallel() && (forall c :: c in r.key1.cols ==> c in td.cols) && (forall c :: c in r.key2.cols ==> c in td.cols)
            && (InBounds(td, row, r.cmp1, r.key1, r.cmp2, r.key2) <==> p == eqs && Within(b[cols[f.eq]], row[ColIndex(td.cols, cols[f.eq])]))
  {
    hide TupleLt, Types, Storable, Project, EqVals, FitIs;
    var col := cols[f.eq];
    var c, x := b[col], row[ColIndex(td.cols, col)];
    ProjectLast(td, cols[..f.eq], col, row);
    NotBelowItself(eqs);
    var r := RangeFor(cols, b, f);
    if c.lo.Some? {
      LastDecides(eqs, x, c.lo.value.v);
      LastDecides(eqs, c.lo.value.v, x);
    }
    if c.hi.Some? {
      LastDecides(eqs, x, c.hi.value.v);
      LastDecides(eqs, c.hi.value.v, x);
    }
    if InBounds(td, row, r.cmp1, r.key1, r.cmp2, r.key2) {
      NotBelow(p, eqs, x, c);
      SqueezedEqual(p, eqs, x, if c.lo.Some? then Some(c.lo.value.v) else None, if c.hi.Some? then Some(c.hi.value.v) else None);
    }
  }

  /** A tuple above another is not below it. */
  lemma NotBelow(p: seq<Value>, eqs: seq<Value>, x: Value, c: ColBound)
    requires |p| == |eqs|
    ensures c.lo.Some? && TupleLt(eqs + [c.lo.value.v], p + [x]) ==> !TupleLt(p + [x], eqs + [c.lo.value.v])
    ensures c.hi.Some? && TupleLt(p + [x], eqs + [c.hi.value.v]) ==> !TupleLt(eqs + [c.hi.value.v], p + [x])
  {
    hide TupleLt;
    if c.lo.Some? && TupleLt(eqs + [c.lo.value.v], p + [x]) {
      TupleAsymmetric(eqs + [c.lo.value.v], p + [x]);
    }
    if c.hi.Some? && TupleLt(p + [x], eqs + [c.hi.value.v]) {
      TupleAsymmetric(p + [x], eqs + [c.hi.value.v]);
    }
  }

  /** ql_range's answer: that range, or the whole table if nothing narrows or an upper limit alone would mistake the tree. */
  lemma NarrowedIs(filter: Expr, td: TableDef, b: Bounds, tree: int, f: Fit)
    requires td.pkeys <= |td.cols| && -1 <= tree < |td.indexes| && FitIs(TreeCols(td, tree), b, f)
    ensures var cols := if tree < 0 then td.cols[..td.pkeys] else td.indexes[tree];
            Narrowed(td, filter, b, tree, f) ==
            if filter.Uninit? || b == map[] || (f.eq == 0 && !f.range) || (f.eq == 0 && tree >= 0 && b[cols[0]].lo.None?)
            then WHOLE else RangeFor(cols, b, f)
  {
    FitInside(TreeCols(td, tree), b, f);
  }
}

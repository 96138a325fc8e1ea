/** Concrete filters on which narrowing has the two limits it has. */
module QlSamples {
  import opened OrderPreserving
  import opened RowCodec
  import opened Tables
  import opened TableAccess
  import opened Samples
  import opened Iterators
  import opened Scans
  import opened ScanRows
  import opened QlEvals
  import opened QlRanges
  import opened QlOutcomes

  // ------------------------------------------------------------ a range that the wrong index rejects

  const SAMPLE: TableDef :=

    TableDef(NAME, [COL_P, COL_A, COL_B, COL_C], [INT_64, INT_64, INT_64, INT_64], 1, [[COL_A, COL_B, COL_P], [COL_A, COL_C, COL_P]], 3, [4, 5])

  const SAMPLE_FILTER: Expr :=

    And(Compare(EQ, Sym(COL_A), Lit(Int(1))), Compare(Less, Sym(COL_C), Lit(Int(5))))

  lemma SampleOk()
    ensures TableOk(SAMPLE)
  {
    assert Pk(SAMPLE) == [COL_P];
    assert SAMPLE.indexes[0] == [COL_A, COL_B, COL_P] && SAMPLE.indexes[1] == [COL_A, COL_C, COL_P];
    assert IndexOk(SAMPLE, SAMPLE.indexes[0]) && IndexOk(SAMPLE, SAMPLE.indexes[1]);
  }

  lemma SampleColumns()
    ensures ColIndex(SAMPLE.cols, COL_P) == 0 && ColIndex(SAMPLE.cols, COL_A) == 1
    ensures ColIndex(SAMPLE.cols, COL_B) == 2 && ColIndex(SAMPLE.cols, COL_C) == 3
  {
    assert SAMPLE.cols[0] == COL_P && SAMPLE.cols[1] == COL_A && SAMPLE.cols[2] == COL_B && SAMPLE.cols[3] == COL_C;
  }

  lemma SampleBounds()
    ensures Collect(SAMPLE_FILTER, SAMPLE, map[]) ==
            map[COL_A := ColBound(Some(Int(1)), None, None), COL_C := ColBound(None, None, Some(Limit(Int(5), true)))]
    ensures Collect(SAMPLE_FILTER, SAMPLE, map[]) == SAMPLE_BOUNDS
  {
    SampleColumns();
    var l, r := SAMPLE_FILTER.l, SAMPLE_FILTER.r;
    assert TermOf(l, SAMPLE) == Term(COL_A, EQ, Int(1));
    assert TermOf(r, SAMPLE) == Term(COL_C, Less, Int(5));
  }

  const SAMPLE_BOUNDS: Bounds :=

    map[COL_A := ColBound(Some(Int(1)), None, None), COL_C := ColBound(None, None, Some(Limit(Int(5), true)))]

  lemma OnlyFit(cols: seq<Name>, b: Bounds, f: Fit)
    requires FitIs(cols, b, f)
    ensures forall g :: FitIs(cols, b, g) ==> g == f
  {
    forall g | FitIs(cols, b, g)
      ensures g == f
    {
      FitIsUnique(cols, b, g, f);
    }
  }

  lemma SampleFits()
    ensures FitIs([COL_P], SAMPLE_BOUNDS, Fit(0, false))
    ensures FitIs([COL_A, COL_B, COL_P], SAMPLE_BOUNDS, Fit(1, false)) && FitIs([COL_A, COL_C, COL_P], SAMPLE_BOUNDS, Fit(1, true))
  {
  }

  lemma SampleBest()
    ensures SAMPLE.pkeys <= |SAMPLE.cols| && Best(SAMPLE, SAMPLE_BOUNDS, 1, Fit(1, true))
  {
    hide FitIs;
    var pk, i0, i1 := [COL_P], [COL_A, COL_B, COL_P], [COL_A, COL_C, COL_P];
    assert Pk(SAMPLE) == pk && SAMPLE.indexes == [i0, i1];
    SampleFits();
    OnlyFit(pk, SAMPLE_BOUNDS, Fit(0, false));
    OnlyFit(i0, SAMPLE_BOUNDS, Fit(1, false));
    OnlyFit(i1, SAMPLE_BOUNDS, Fit(1, true));
  }

  lemma SampleRange()
    ensures FitIs([COL_A, COL_C, COL_P], SAMPLE_BOUNDS, Fit(1, true))
    ensures RangeFor([COL_A, COL_C, COL_P], SAMPLE_BOUNDS, Fit(1, true)) ==
            Range(GE, LT, Record([COL_A], [Int(1)]), Record([COL_A, COL_C], [Int(1), Int(5)]))
  {
    var i1 := [COL_A, COL_C, COL_P];
    assert i1[..1] == [COL_A];
    assert EqVals([COL_A], SAMPLE_BOUNDS) == [Int(1)];
    assert i1[1] == COL_C;
  }

  lemma SampleChosen()
    ensures SAMPLE.pkeys <= |SAMPLE.cols| && Chosen(SAMPLE, [COL_A], 0) && !IsPrefix(SAMPLE.indexes[0], [COL_A, COL_C])
  {
    var i0 := [COL_A, COL_B, COL_P];
    assert Pk(SAMPLE) == [COL_P] && SAMPLE.indexes[0] == i0 && i0[..1] == [COL_A] && i0[..2] == [COL_A, COL_B];
    assert [COL_A, COL_B][1] != [COL_A, COL_C][1];
    assert [COL_P][..1][0] != [COL_A][0];
  }

  /**
   * a = 1 AND c < 5 is narrowed over the index on a, c; but key1 only names a, so find_index picks the index on a, b,
   * which does not start with key2's columns, and db_scan rejects the range.
   */
  lemma NarrowingCanBeRejected()
    ensures TableOk(SAMPLE) && Collect(SAMPLE_FILTER, SAMPLE, map[]) == SAMPLE_BOUNDS
    ensures Best(SAMPLE, SAMPLE_BOUNDS, 1, Fit(1, true)) && FitIs(TreeCols(SAMPLE, 1), SAMPLE_BOUNDS, Fit(1, true))
    ensures var r := Narrowed(SAMPLE, SAMPLE_FILTER, SAMPLE_BOUNDS, 1, Fit(1, true));
            r.Parallel() && Chosen(SAMPLE, r.key1.cols, 0) && !Accepts(SAMPLE, 0, r.cmp1, r.cmp2, r.key1, r.key2)
  {
    hide FitIs, Collect, Best, RangeFor, TableOk, Chosen, IsPrefix;
    SampleOk();
    SampleBounds();
    SampleBest();
    SampleRange();
    SampleChosen();
    assert SAMPLE.indexes[1] == [COL_A, COL_C, COL_P] && COL_A in SAMPLE_BOUNDS;
  }

  // ------------------------------------------------------------ a failure that narrowing hides

  const GUARDED: TableDef := TableDef(NAME, [COL_P, COL_A, COL_B], [INT_64, INT_64, INT_64], 1, [[COL_A, COL_P]], 3, [4])

  /** a = 1 AND 10 / b > 0; AND evaluates both sides. */
  const GUARDED_FILTER: Expr :=
    And(Compare(EQ, Sym(COL_A), Lit(Int(1))), Compare(Greater, Arith(DIV, Lit(Int(10)), Sym(COL_B)), Lit(Int(0))))

  const GUARDED_BOUNDS: Bounds := map[COL_A := ColBound(Some(Int(1)), None, None)]

  /** One row, with a = 2 and b = 0. */
  const GUARDED_PK: seq<Value> := [Int(1)]

  const GUARDED_ROWS: Rows := map[GUARDED_PK := [Int(2), Int(0)]]

  const GUARDED_PLAN: Plan := Plan(0, Fit(1, false), 0)

  lemma GuardedOk()
    ensures TableOk(GUARDED) && RowsOk(GUARDED, GUARDED_ROWS) && Pk(GUARDED) == [COL_P]
    ensures ColIndex(GUARDED.cols, COL_P) == 0 && ColIndex(GUARDED.cols, COL_A) == 1 && ColIndex(GUARDED.cols, COL_B) == 2
  {
    assert GUARDED.cols[0] == COL_P && GUARDED.cols[1] == COL_A && GUARDED.cols[2] == COL_B;
    assert Pk(GUARDED) == [COL_P];
    assert GUARDED.indexes[0] == [COL_A, COL_P];
    assert IndexOk(GUARDED, GUARDED.indexes[0]);
    assert Types([Int(1), Int(2), Int(0)]) == GUARDED.types;
    assert GUARDED_PK + GUARDED_ROWS[GUARDED_PK] == [Int(1), Int(2), Int(0)];
  }

  lemma GuardedBounds()
    ensures Collect(GUARDED_FILTER, GUARDED, map[]) == GUARDED_BOUNDS
  {
    GuardedOk();
    assert TermOf(GUARDED_FILTER.l, GUARDED) == Term(COL_A, EQ, Int(1));
    assert TermOf(GUARDED_FILTER.r, GUARDED) == NotATerm;
  }

  lemma GuardedBest()
    ensures GUARDED.pkeys <= |GUARDED.cols| == |GUARDED.types| && Best(GUARDED, GUARDED_BOUNDS, 0, Fit(1, false))
    ensures FitIs([COL_A, COL_P], GUARDED_BOUNDS, Fit(1, false))
  {
    var pk, index := [COL_P], [COL_A, COL_P];
    assert Pk(GUARDED) == pk && GUARDED.indexes == [index];
    assert FitIs(pk, GUARDED_BOUNDS, Fit(0, false)) && FitIs(index, GUARDED_BOUNDS, Fit(1, false));
    OnlyFit(pk, GUARDED_BOUNDS, Fit(0, false));
    OnlyFit(index, GUARDED_BOUNDS, Fit(1, false));
  }

  lemma GuardedRange()
    ensures FitIs([COL_A, COL_P], GUARDED_BOUNDS, Fit(1, false))
    ensures RangeFor([COL_A, COL_P], GUARDED_BOUNDS, Fit(1, false)) == Range(GE, LE, Record([COL_A], [Int(1)]), Record([COL_A], [Int(1)]))
  {
    assert [COL_A, COL_P][..1] == [COL_A];
    assert EqVals([COL_A], GUARDED_BOUNDS) == [Int(1)];
  }

  lemma GuardedChosen()
    ensures GUARDED.pkeys <= |GUARDED.cols| && Chosen(GUARDED, [COL_A], 0) && IsPrefix(TreeCols(GUARDED, 0), [COL_A])
  {
    assert Pk(GUARDED) == [COL_P] && GUARDED.indexes[0] == [COL_A, COL_P] && [COL_A, COL_P][..1] == [COL_A];
    assert [COL_P][..1][0] != [COL_A][0];
  }

  lemma GuardedPlan()
    ensures GUARDED.pkeys <= |GUARDED.cols| == |GUARDED.types| && IsPlan(GUARDED_FILTER, GUARDED, GUARDED_PLAN)
    ensures RangeAccepted(GUARDED_FILTER, GUARDED)
    ensures PlanRange(GUARDED_FILTER, GUARDED, 0, Fit(1, false)) == Range(GE, LE, Record([COL_A], [Int(1)]), Record([COL_A], [Int(1)]))
  {
    hide FitIs, Collect, Best, RangeFor, TableOk, Chosen, IsPrefix;
    GuardedBounds();
    GuardedBest();
    GuardedRange();
    GuardedChosen();
    assert TreeCols(GUARDED, 0) == [COL_A, COL_P] && COL_A in GUARDED_BOUNDS;
    assert AcceptedBy(GUARDED_FILTER, GUARDED, 0, Fit(1, false), 0);
  }

  /** The row lies outside the range, and makes the filter fail. */
  lemma GuardedRow()
    ensures var row := [Int(1), Int(2), Int(0)];
            && |row| == |GUARDED.cols| && COL_A in GUARDED.cols && Project(GUARDED, [COL_A], row) == [Int(2)] && Fails(GUARDED_FILTER, GUARDED, row)
    ensures !TupleCmp([Int(2)], LE, [Int(1)])
  {
    hide TableOk, RowsOk, TruncDiv, TruncMod;
    GuardedOk();
    var env := Record(GUARDED.cols, [Int(1), Int(2), Int(0)]);
    assert GUARDED.cols[1] == COL_A;
    assert Field(env, COL_B) == Some(Int(0)) && Field(env, COL_A) == Some(Int(2));
    assert Eval(GUARDED_FILTER.r.l, env) == None;
    assert Eval(GUARDED_FILTER.r, env) == None;
    assert TupleLt([Int(1)], [Int(2)]);
  }

  lemma GuardedRows()
    ensures forall pk :: pk in GUARDED_ROWS <==> pk == GUARDED_PK
    ensures GUARDED_PK + GUARDED_ROWS[GUARDED_PK] == [Int(1), Int(2), Int(0)]
  {
  }

  lemma GuardedVisits()
    ensures GUARDED.pkeys <= |GUARDED.cols| == |GUARDED.types| && Visits(GUARDED_FILTER, GUARDED, GUARDED_ROWS, GUARDED_PLAN, [])
  {
    hide IsPlan, PlanRange, TupleCmp, Fails, Project;
    GuardedPlan();
    GuardedRow();
    GuardedRows();
  }

  lemma GuardedWhole()
    ensures ListsRange(GUARDED, GUARDED_ROWS, -1, WHOLE, [GUARDED_PK])
  {
    hide InBounds;
    GuardedRows();
    var pks := [GUARDED_PK];
    assert pks[1..] == [] && NoRepeats(pks);
    assert InOrder(GUARDED, GUARDED_ROWS, -1, true, pks);
    assert GUARDED_PK in pks && |GUARDED.cols| == 3;
    WholeHolds(GUARDED, GUARDED_PK + GUARDED_ROWS[GUARDED_PK]);
  }

  lemma GuardedFails()
    ensures GUARDED_PK in GUARDED_ROWS && RowFails(GUARDED_FILTER, GUARDED, GUARDED_ROWS, GUARDED_PK)
  {
    hide Fails, TupleCmp;
    GuardedRow();
    GuardedRows();
  }

  lemma NothingVisited(filter: Expr, td: TableDef, rows: Rows)
    ensures ScanOutcome(filter, td, rows, [], 0, -1) == Rows([])
  {
  }

  /**
   * On this table the narrowed scan reads no row and succeeds; the scan of the whole table reads the one row, whose
   * division by zero makes it fail.
   */
  lemma NarrowingCanHideFailure()
    ensures TableOk(GUARDED) && RowsOk(GUARDED, GUARDED_ROWS) && GUARDED.pkeys <= |GUARDED.cols| == |GUARDED.types|
    ensures RangeAccepted(GUARDED_FILTER, GUARDED)
    ensures Visits(GUARDED_FILTER, GUARDED, GUARDED_ROWS, GUARDED_PLAN, []) && ListsRange(GUARDED, GUARDED_ROWS, -1, WHOLE, [GUARDED_PK])
    ensures ScanOutcome(GUARDED_FILTER, GUARDED, GUARDED_ROWS, [], 0, -1) == Rows([])
    ensures ScanOutcome(GUARDED_FILTER, GUARDED, GUARDED_ROWS, [GUARDED_PK], 0, -1) == FilterFailed
  {
    hide Visits, ListsRange, RangeAccepted, TableOk, RowsOk, RowFails, IsPlan, PlanRange;
    GuardedOk();
    GuardedPlan();
    GuardedVisits();
    GuardedWhole();
    GuardedFails();
    NothingVisited(GUARDED_FILTER, GUARDED, GUARDED_ROWS);
    assert GUARDED_PK in [GUARDED_PK];
    UnlimitedFailure(GUARDED_FILTER, GUARDED, GUARDED_ROWS, [GUARDED_PK], 0, -1);
  }
}

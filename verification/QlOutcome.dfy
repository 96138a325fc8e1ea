/** What a filtered scan answers, as a function of the rows it visits, and how narrowing bears on it (src/ql/ql_exec.cpp). */
module QlOutcomes {
  import opened OrderPreserving
  import opened RowCodec
  import opened Tables
  import opened TableAccess
  import opened ScanRows
  import opened QlEvals
  import opened QlRanges

  /** RangeRejected is db_scan's error, ScanThrows its exception, FilterFailed an error of the filter on a row. */
  datatype ScanResult = RangeRejected | ScanThrows | FilterFailed | Rows(out: seq<Record>)

  /** skip and take of a LIMIT clause; a negative limit takes all. */
  function Window<T>(s: seq<T>, offset: nat, limit: int): seq<T>
  {
    var rest := if offset <= |s| then s[offset..] else [];
    if 0 <= limit < |rest| then rest[..limit] else rest
  }

  ghost predicate RowKept(filter: Expr, td: TableDef, rows: Rows, pk: seq<Value>)
    requires pk in rows
  {
    |pk + rows[pk]| == |td.cols| && Selects(filter, td, pk + rows[pk])
  }

  ghost predicate RowFails(filter: Expr, td: TableDef, rows: Rows, pk: seq<Value>)
    requires pk in rows
  {
    |pk + rows[pk]| == |td.cols| && Fails(filter, td, pk + rows[pk])
  }

  /** What the filter keeps of some rows, in their order. */
  ghost function KeptOf(filter: Expr, td: TableDef, rows: Rows, pks: seq<seq<Value>>): seq<seq<Value>>
    requires forall pk :: pk in pks ==> pk in rows
  {
    if pks == [] then []
    else (if RowKept(filter, td, rows, pks[0]) then [pks[0]] else []) + KeptOf(filter, td, rows, pks[1..])
  }

  lemma {:induction false} KeptMembers(filter: Expr, td: TableDef, rows: Rows, pks: seq<seq<Value>>)
    requires forall pk :: pk in pks ==> pk in rows
    ensures forall pk :: pk in KeptOf(filter, td, rows, pks) <==> pk in pks && RowKept(filter, td, rows, pk)
  {
    if pks != [] {
      KeptMembers(filter, td, rows, pks[1..]);
      assert forall pk :: pk in pks <==> pk == pks[0] || pk in pks[1..];
    }
  }

  lemma {:induction false} KeptAppend(filter: Expr, td: TableDef, rows: Rows, pks: seq<seq<Value>>, pk: seq<Value>)
    requires (forall q :: q in pks ==> q in rows) && pk in rows
    ensures forall q :: q in pks + [pk] ==> q in rows
    ensures KeptOf(filter, td, rows, pks + [pk]) ==
            KeptOf(filter, td, rows, pks) + if RowKept(filter, td, rows, pk) then [pk] else []
  {
    if pks == [] {
      assert [] + [pk] == [pk] && [pk][1..] == [];
    } else {
      assert (pks + [pk])[1..] == pks[1..] + [pk];
      KeptAppend(filter, td, rows, pks[1..], pk);
    }
  }

  ghost function RecordsOf(td: TableDef, rows: Rows, pks: seq<seq<Value>>): seq<Record>
    requires forall pk :: pk in pks ==> pk in rows
  {
    seq(|pks|, i requires 0 <= i < |pks| => assert pks[i] in pks; RowRecord(td, rows, pks[i]))
  }

  lemma RecordMembers(td: TableDef, rows: Rows, pks: seq<seq<Value>>)
    requires forall pk :: pk in pks ==> pk in rows
    ensures |RecordsOf(td, rows, pks)| == |pks|
    ensures forall rec :: rec in RecordsOf(td, rows, pks) <==> exists pk :: pk in pks && RowRecord(td, rows, pk) == rec
  {
    hide RowRecord;
    var out := RecordsOf(td, rows, pks);
    forall rec | exists pk :: pk in pks && RowRecord(td, rows, pk) == rec
      ensures rec in out
    {
      var pk :| pk in pks && RowRecord(td, rows, pk) == rec;
      var i :| 0 <= i < |pks| && pks[i] == pk;
      assert out[i] == rec;
    }
  }

  lemma WindowMembers<T>(s: seq<T>, offset: nat, limit: int)
    ensures forall x :: x in Window(s, offset, limit) ==> x in s
  {
  }

  lemma KeptInRows(filter: Expr, td: TableDef, rows: Rows, pks: seq<seq<Value>>, offset: nat, limit: int)
    requires forall pk :: pk in pks ==> pk in rows
    ensures forall pk :: pk in Window(KeptOf(filter, td, rows, pks), offset, limit) ==> pk in rows
  {
    KeptMembers(filter, td, rows, pks);
    WindowMembers(KeptOf(filter, td, rows, pks), offset, limit);
  }

  // ------------------------------------------------------------ the rows of a range

  ghost predicate NoRepeats<T>(s: seq<T>)
  {
    s != [] ==> s[0] !in s[1..] && NoRepeats(s[1..])
  }

  lemma {:induction false} AllDifferent<T>(s: seq<T>)
    requires forall i, j :: 0 <= i < j < |s| ==> s[i] != s[j]
    ensures NoRepeats(s)
  {
    if s != [] {
      AllDifferent(s[1..]);
    }
  }

  lemma {:induction false} KeptDistinct(filter: Expr, td: TableDef, rows: Rows, pks: seq<seq<Value>>)
    requires (forall pk :: pk in pks ==> pk in rows) && NoRepeats(pks)
    ensures NoRepeats(KeptOf(filter, td, rows, pks))
  {
    hide RowKept;
    if pks != [] {
      KeptDistinct(filter, td, rows, pks[1..]);
      KeptMembers(filter, td, rows, pks[1..]);
      var rest := KeptOf(filter, td, rows, pks[1..]);
      assert ([pks[0]] + rest)[1..] == rest && [] + rest == rest;
    }
  }

  /** Row p comes before row q in the tree's order: that of its columns. */
  ghost predicate RowBefore(td: TableDef, rows: Rows, tree: int, p: seq<Value>, q: seq<Value>)
  {
    && p in rows && q in rows && |p + rows[p]| == |q + rows[q]| == |td.cols|
    && td.pkeys <= |td.cols| && -1 <= tree < |td.indexes| && (forall c :: c in TreeCols(td, tree) ==> c in td.cols)
    && TupleLt(Project(td, TreeCols(td, tree), p + rows[p]), Project(td, TreeCols(td, tree), q + rows[q]))
  }

  /** Every two rows are in the tree's order, or all in its reverse. */
  ghost predicate InOrder(td: TableDef, rows: Rows, tree: int, forward: bool, pks: seq<seq<Value>>)
  {
    forall i, j :: 0 <= i < j < |pks| ==>
      if forward then RowBefore(td, rows, tree, pks[i], pks[j]) else RowBefore(td, rows, tree, pks[j], pks[i])
  }

  /** Every row of the table between the bounds is listed once, and no other, in the order of the tree scanned. */
  ghost predicate ListsRange(td: TableDef, rows: Rows, tree: int, r: Range, pks: seq<seq<Value>>)
  {
    && (forall pk :: pk in pks ==> pk in rows)
    && NoRepeats(pks) && InOrder(td, rows, tree, r.cmp1.Forward(), pks)
    && r.Parallel() && (forall c :: c in r.key1.cols ==> c in td.cols) && (forall c :: c in r.key2.cols ==> c in td.cols)
    && (forall pk :: pk in rows ==> |pk + rows[pk]| == |td.cols|)
    && (forall pk :: pk in rows ==> (pk in pks <==> InBounds(td, pk + rows[pk], r.cmp1, r.key1, r.cmp2, r.key2)))
  }

  /** A plan, and the rows that a scan following it visits. */
  ghost predicate Visits(filter: Expr, td: TableDef, rows: Rows, p: Plan, pks: seq<seq<Value>>)
    requires td.pkeys <= |td.cols| == |td.types|
  {
    IsPlan(filter, td, p) && ListsRange(td, rows, p.picked, PlanRange(filter, td, p.tree, p.fit), pks)
  }

  lemma BeforeIsOneWay(td: TableDef, rows: Rows, tree: int, p: seq<Value>, q: seq<Value>)
    requires RowBefore(td, rows, tree, p, q)
    ensures !RowBefore(td, rows, tree, q, p)
  {
    hide Project;
    var s, t := Project(td, TreeCols(td, tree), p + rows[p]), Project(td, TreeCols(td, tree), q + rows[q]);
    TupleAsymmetric(s, t);
  }

  /** A range has one listing. */
  lemma ListingIsUnique(td: TableDef, rows: Rows, tree: int, r: Range, a: seq<seq<Value>>, b: seq<seq<Value>>)
    requires ListsRange(td, rows, tree, r, a) && ListsRange(td, rows, tree, r, b)
    ensures a == b
  {
    hide InBounds, RowBefore, NoRepeats;
    SameListing(td, rows, tree, r.cmp1.Forward(), a, b);
  }

  /** So a filter has one sequence of rows to visit. */
  lemma VisitsAreUnique(filter: Expr, td: TableDef, rows: Rows, p: Plan, a: seq<seq<Value>>, q: Plan, b: seq<seq<Value>>)
    requires td.pkeys <= |td.cols| == |td.types| && Visits(filter, td, rows, p, a) && Visits(filter, td, rows, q, b)
    ensures a == b
  {
    hide Best, Chosen, PlanRange, ListsRange, Collect;
    PlanIsUnique(filter, td, p, q);
    ListingIsUnique(td, rows, p.picked, PlanRange(filter, td, p.tree, p.fit), a, b);
  }

  lemma {:induction false} SameListing(td: TableDef, rows: Rows, tree: int, forward: bool, a: seq<seq<Value>>, b: seq<seq<Value>>)
    requires InOrder(td, rows, tree, forward, a) && InOrder(td, rows, tree, forward, b) && NoRepeats(a) && NoRepeats(b)
    requires forall x :: x in a <==> x in b
    ensures a == b
  {
    hide RowBefore;
    assert (a != [] ==> a[0] in b) && (b != [] ==> b[0] in a);
    if a != [] && b != [] {
      SameHead(td, rows, tree, forward, a, b);
      forall x
        ensures x in a[1..] <==> x in b[1..]
      {
        assert x in a <==> x == a[0] || x in a[1..];
        assert x in b <==> x == b[0] || x in b[1..];
      }
      SameListing(td, rows, tree, forward, a[1..], b[1..]);
    }
  }

  lemma SameHead(td: TableDef, rows: Rows, tree: int, forward: bool, a: seq<seq<Value>>, b: seq<seq<Value>>)
    requires InOrder(td, rows, tree, forward, a) && InOrder(td, rows, tree, forward, b) && a != [] && b != []
    requires forall x :: x in a <==> x in b
    ensures a[0] == b[0]
  {
    hide RowBefore;
    assert a[0] in b && b[0] in a;
    var i :| 0 <= i < |b| && b[i] == a[0];
    var j :| 0 <= j < |a| && a[j] == b[0];
    if a[0] != b[0] {
      if forward {
        BeforeIsOneWay(td, rows, tree, b[0], a[0]);
      } else {
        BeforeIsOneWay(td, rows, tree, a[0], b[0]);
      }
    }
  }

  // ------------------------------------------------------------ the outcome

  /** How many kept rows fit before the window is full; negative if there is no limit. */
  function Room(offset: nat, limit: int): int
  {
    if limit < 0 then -1 else offset + limit
  }

  /** The rows read until the window is full: up to the first kept row for which there is no room. */
  ghost function ReadOf(filter: Expr, td: TableDef, rows: Rows, pks: seq<seq<Value>>, room: int): (read: seq<seq<Value>>)
    requires forall pk :: pk in pks ==> pk in rows
    ensures forall pk :: pk in read ==> pk in pks
  {
    if pks == [] || (room == 0 && RowKept(filter, td, rows, pks[0])) then []
    else [pks[0]] + ReadOf(filter, td, rows, pks[1..], if RowKept(filter, td, rows, pks[0]) then room - 1 else room)
  }

  lemma ReadHead(filter: Expr, td: TableDef, rows: Rows, pks: seq<seq<Value>>, room: int)
    requires (forall pk :: pk in pks ==> pk in rows) && pks != []
    ensures ReadOf(filter, td, rows, pks, room) ==
            if room == 0 && RowKept(filter, td, rows, pks[0]) then []
            else [pks[0]] + ReadOf(filter, td, rows, pks[1..], if RowKept(filter, td, rows, pks[0]) then room - 1 else room)
  {
  }

  /** Reading stops exactly before the first row kept for which there is no room left. */
  lemma {:induction false} ReadOfIs(filter: Expr, td: TableDef, rows: Rows, pks: seq<seq<Value>>, room: int)
    requires forall pk :: pk in pks ==> pk in rows
    ensures var read := ReadOf(filter, td, rows, pks, room);
            && read <= pks && (room >= 0 ==> |KeptOf(filter, td, rows, read)| <= room)
            && (|read| < |pks| ==> room >= 0 && |KeptOf(filter, td, rows, read)| == room && RowKept(filter, td, rows, pks[|read|]))
  {
    hide RowKept;
    if pks != [] && !(room == 0 && RowKept(filter, td, rows, pks[0])) {
      var rest := if RowKept(filter, td, rows, pks[0]) then room - 1 else room;
      ReadOfIs(filter, td, rows, pks[1..], rest);
      var more := ReadOf(filter, td, rows, pks[1..], rest);
      assert ReadOf(filter, td, rows, pks, room) == [pks[0]] + more;
      assert ([pks[0]] + more)[1..] == more;
      assert |more| < |pks[1..]| ==> pks[1..][|more|] == pks[|more| + 1];
    }
  }

  /** OFFSET leaves out that many, LIMIT takes at most that many of the others, in their order. */
  lemma WindowIs<T>(s: seq<T>, offset: nat, limit: int)
    ensures var w := Window(s, offset, limit);
            && (forall i :: 0 <= i < |w| ==> offset + i < |s| && w[i] == s[offset + i])
            && (limit >= 0 ==> |w| <= limit)
            && (offset + |w| < |s| ==> limit >= 0 && |w| == limit)
  {
  }

  lemma NothingRead(filter: Expr, td: TableDef, rows: Rows, room: int)
    ensures ReadOf(filter, td, rows, [], room) == []
  {
  }

  /** Without a limit every row is read. */
  lemma {:induction false} ReadAll(filter: Expr, td: TableDef, rows: Rows, pks: seq<seq<Value>>, room: int)
    requires (forall pk :: pk in pks ==> pk in rows) && room < 0
    ensures ReadOf(filter, td, rows, pks, room) == pks
  {
    hide RowKept, ReadOf;
    NothingRead(filter, td, rows, room);
    if pks != [] {
      ReadHead(filter, td, rows, pks, room);
      ReadAll(filter, td, rows, pks[1..], if RowKept(filter, td, rows, pks[0]) then room - 1 else room);
    }
  }

  /**
   * The outcome of scanning pks in this order: failure exactly if the filter fails on a row read before the window is
   * full, else the window of the rows kept.
   */
  ghost function ScanOutcome(filter: Expr, td: TableDef, rows: Rows, pks: seq<seq<Value>>, offset: nat, limit: int): (r: ScanResult)
    requires forall pk :: pk in pks ==> pk in rows
    ensures r.FilterFailed? || r.Rows?
  {
    KeptInRows(filter, td, rows, pks, offset, limit);
    if exists pk :: pk in ReadOf(filter, td, rows, pks, Room(offset, limit)) && RowFails(filter, td, rows, pk) then FilterFailed
    else Rows(RecordsOf(td, rows, Window(KeptOf(filter, td, rows, pks), offset, limit)))
  }

  /** For every OFFSET and LIMIT: an error exactly if a row read fails, else the records of the window of the rows kept. */
  lemma OutcomeIs(filter: Expr, td: TableDef, rows: Rows, pks: seq<seq<Value>>, offset: nat, limit: int)
    requires forall pk :: pk in pks ==> pk in rows
    ensures var r, kept := ScanOutcome(filter, td, rows, pks, offset, limit), Window(KeptOf(filter, td, rows, pks), offset, limit);
            && (r.FilterFailed? <==>
                  exists pk :: pk in ReadOf(filter, td, rows, pks, if limit < 0 then -1 else offset + limit) && RowFails(filter, td, rows, pk))
            && (!r.FilterFailed? ==>
                  && r.Rows? && |r.out| == |kept|
                  && forall i :: 0 <= i < |kept| ==> kept[i] in rows && r.out[i] == Record(td.cols, kept[i] + rows[kept[i]]))
  {
    hide RowKept, RowFails, KeptOf, Window;
    KeptInRows(filter, td, rows, pks, offset, limit);
  }

  /** Without a limit, failure means exactly that some row visited makes the filter fail. */
  lemma UnlimitedFailure(filter: Expr, td: TableDef, rows: Rows, pks: seq<seq<Value>>, offset: nat, limit: int)
    requires (forall pk :: pk in pks ==> pk in rows) && limit < 0
    ensures ScanOutcome(filter, td, rows, pks, offset, limit).FilterFailed? <==>
            exists pk :: pk in pks && RowFails(filter, td, rows, pk)
  {
    hide RowKept, RowFails, KeptOf;
    ReadAll(filter, td, rows, pks, -1);
  }

  // ------------------------------------------------------------ without a window

  /** Without OFFSET and LIMIT a scan that keeps all that the table keeps fails exactly if it reads a failing row. */
  lemma Unwindowed(filter: Expr, td: TableDef, rows: Rows, pks: seq<seq<Value>>)
    requires (forall pk :: pk in pks ==> pk in rows) && NoRepeats(pks) && TableOk(td) && RowsOk(td, rows)
    requires forall pk :: pk in rows ==> (pk in KeptOf(filter, td, rows, pks) <==> RowKept(filter, td, rows, pk))
    ensures var r := ScanOutcome(filter, td, rows, pks, 0, -1);
            && (r.FilterFailed? <==> exists pk :: pk in pks && RowFails(filter, td, rows, pk))
            && (!r.FilterFailed? ==> r.Rows? && IsSelection(filter, td, rows, r.out))
  {
    hide RowKept, RowFails, KeptOf, NoRepeats, RecordsOf, RowRecord, TableOk, RowsOk;
    ReadAll(filter, td, rows, pks, -1);
    var kept := KeptOf(filter, td, rows, pks);
    KeptMembers(filter, td, rows, pks);
    KeptDistinct(filter, td, rows, pks);
    assert Window(kept, 0, -1) == kept;
    RecordMembers(td, rows, kept);
    RecordsDiffer(td, rows, kept);
  }

  /** Different rows are different records. */
  lemma {:induction false} RecordsDiffer(td: TableDef, rows: Rows, pks: seq<seq<Value>>)
    requires (forall pk :: pk in pks ==> pk in rows) && NoRepeats(pks) && TableOk(td) && RowsOk(td, rows)
    ensures NoRepeats(RecordsOf(td, rows, pks))
  {
    hide TableOk;
    if pks != [] {
      RecordsDiffer(td, rows, pks[1..]);
      var out, rest := RecordsOf(td, rows, pks), RecordsOf(td, rows, pks[1..]);
      assert out == [RowRecord(td, rows, pks[0])] + rest;
      RecordMembers(td, rows, pks[1..]);
      forall pk | pk in pks[1..]
        ensures RowRecord(td, rows, pk) != RowRecord(td, rows, pks[0])
      {
        assert (pk + rows[pk])[..|pk|] == pk && (pks[0] + rows[pks[0]])[..|pks[0]|] == pks[0];
      }
    }
  }

  /** Both fail, or both return the same records, each once, in whatever order. */
  ghost predicate SameAnswer(a: ScanResult, b: ScanResult)
  {
    (a.FilterFailed? && b.FilterFailed?) || (a.Rows? && b.Rows? && multiset(a.out) == multiset(b.out))
  }

  lemma SelectionsAgree(filter: Expr, td: TableDef, rows: Rows, a: seq<Record>, b: seq<Record>)
    requires IsSelection(filter, td, rows, a) && IsSelection(filter, td, rows, b)
    ensures multiset(a) == multiset(b)
  {
    hide RowKept, NoRepeats;
    OnceEach(a);
    OnceEach(b);
    forall rec
      ensures multiset(a)[rec] == multiset(b)[rec]
    {
      assert rec in a <==> rec in b;
    }
  }

  lemma {:induction false} OnceEach<T>(s: seq<T>)
    requires NoRepeats(s)
    ensures forall x :: multiset(s)[x] == if x in s then 1 else 0
  {
    if s != [] {
      OnceEach(s[1..]);
      assert s == [s[0]] + s[1..];
      assert multiset(s) == multiset{s[0]} + multiset(s[1..]);
    }
  }

  /** The filter fails on some row of the table; on some row between the bounds. */
  ghost predicate SomeRowFails(filter: Expr, td: TableDef, rows: Rows)
  {
    exists pk :: pk in rows && RowFails(filter, td, rows, pk)
  }

  ghost predicate SomeRowInRangeFails(filter: Expr, td: TableDef, rows: Rows, r: Range)
    requires r.Parallel() && (forall c :: c in r.key1.cols ==> c in td.cols) && (forall c :: c in r.key2.cols ==> c in td.cols)
  {
    exists pk :: pk in rows && RowFails(filter, td, rows, pk) && InBounds(td, pk + rows[pk], r.cmp1, r.key1, r.cmp2, r.key2)
  }

  /** With a sound range, the rows kept of those listed are the rows kept of all. */
  lemma KeptAreAllKept(filter: Expr, td: TableDef, rows: Rows, p: Plan, pks: seq<seq<Value>>)
    requires TableOk(td) && RowsOk(td, rows) && td.pkeys <= |td.cols| == |td.types| && Visits(filter, td, rows, p, pks)
    ensures forall pk :: pk in rows ==> (pk in KeptOf(filter, td, rows, pks) <==> RowKept(filter, td, rows, pk))
  {
    hide Best, FitIs, Narrowed, Collect, InBounds, Selects, TableOk, Chosen, InOrder, NoRepeats;
    KeptMembers(filter, td, rows, pks);
    forall pk | pk in rows && RowKept(filter, td, rows, pk)
      ensures pk in pks
    {
      NarrowingIsSound(filter, td, p.tree, p.fit, pk + rows[pk]);
    }
  }

  /** The whole table is listed by the range without bounds. */
  lemma WholeKeepsAll(filter: Expr, td: TableDef, rows: Rows, pks: seq<seq<Value>>)
    requires ListsRange(td, rows, -1, WHOLE, pks)
    ensures forall pk :: pk in rows <==> pk in pks
    ensures forall pk :: pk in rows ==> (pk in KeptOf(filter, td, rows, pks) <==> RowKept(filter, td, rows, pk))
  {
    hide RowKept, InOrder, NoRepeats;
    KeptMembers(filter, td, rows, pks);
    forall pk | pk in rows
      ensures pk in pks
    {
      WholeHolds(td, pk + rows[pk]);
    }
  }

  /**
   * The narrowed scan and the scan of the whole table answer alike, but for the order, exactly unless some row makes the
   * filter fail and no row between the bounds does. Then the narrowed scan succeeds where the other fails.
   */
  lemma NarrowedAnswersAlikeExactlyIf(filter: Expr, td: TableDef, rows: Rows, p: Plan, narrow: seq<seq<Value>>, whole: seq<seq<Value>>)
    requires TableOk(td) && RowsOk(td, rows) && td.pkeys <= |td.cols| == |td.types| && Visits(filter, td, rows, p, narrow)
    requires ListsRange(td, rows, -1, WHOLE, whole)
    ensures var r := PlanRange(filter, td, p.tree, p.fit);
            && r.Parallel() && (forall c :: c in r.key1.cols ==> c in td.cols) && (forall c :: c in r.key2.cols ==> c in td.cols)
            && var n, w := ScanOutcome(filter, td, rows, narrow, 0, -1), ScanOutcome(filter, td, rows, whole, 0, -1);
               && (SameAnswer(n, w) <==> (SomeRowFails(filter, td, rows) ==> SomeRowInRangeFails(filter, td, rows, r)))
               && (!SameAnswer(n, w) ==> n.Rows? && IsSelection(filter, td, rows, n.out) && w.FilterFailed?)
  {
    hide IsPlan, PlanRange, InBounds, RowKept, RowFails, KeptOf, NoRepeats, InOrder, TableOk, RowsOk, ScanOutcome, IsSelection;
    KeptAreAllKept(filter, td, rows, p, narrow);
    WholeKeepsAll(filter, td, rows, whole);
    Unwindowed(filter, td, rows, narrow);
    Unwindowed(filter, td, rows, whole);
    var n, w := ScanOutcome(filter, td, rows, narrow, 0, -1), ScanOutcome(filter, td, rows, whole, 0, -1);
    if n.Rows? && w.Rows? {
      SelectionsAgree(filter, td, rows, n.out, w.out);
    }
  }

  /** Unwindowed, out is the filter applied to the whole table: the record of each row kept, once. */
  ghost predicate IsSelection(filter: Expr, td: TableDef, rows: Rows, out: seq<Record>)
  {
    && (forall rec :: rec in out <==> exists pk :: pk in rows && RowKept(filter, td, rows, pk) && RowRecord(td, rows, pk) == rec)
    && NoRepeats(out)
  }
}

/**
 * Scans under an open reader while the store goes on, and a session on a new file: a table is created, its rows change in
 * one commit after the other, and a reader sees the last.
 */
module TableRuns {
  import opened Nodes
  import opened BTrees
  import opened TreeEdit
  import opened KvTx
  import opened KvStates
  import opened KvSafety
  import opened KvStore
  import opened ReaderHeaps
  import opened OrderPreserving
  import opened Tables
  import opened TableTexts
  import opened TableAccess
  import opened ScanRows
  import opened Catalogs
  import opened CatalogRuns
  import opened StoreQueries
  import opened FreeLists
  import opened Iterators
  import opened KvGuarantees
  import opened SnapshotReads
  import opened QlEvals
  import opened QlRanges
  import opened QlOutcomes
  import opened QlScans
  import opened Samples

  /** In a run whose commits change tables, the snapshot of a reader holds exactly the tables and rows of its label. */
  lemma SnapshotLabel(states: seq<State>, steps: seq<Step>, labels: seq<Labels>, i: nat, id: nat)
    requires IsTableRun(states, steps, labels) && i < |states| && id in states[i].readers
    ensures states[i].readers[id] < |states[i].versions| && states[i].readers[id] < |labels[i].versions|
    ensures IsLabel(labels[i].versions[states[i].readers[id]], Snapshot(states[i], id).rt)
  {
    hide IsLabel, Inv, MadeFrom, Contents;
    RunKeepsInv(states, steps, i);
    ReaderIntact(states[i], id);
    EveryVersionLabelled(states, steps, labels, i);
  }

  /**
   * A filtered scan by a reader that is open from state i to state j of such a run, each page read in a state of its own:
   * at(n) for the scanner's n-th read, atRow(k)(n) for the n-th of the k-th row's lookup. Whatever the writer, the
   * kernel and other readers have done by then, the answer is the one for the tables of the version it began on.
   */
  method ScanDuringRun(views: nat -> Pages, gets: nat -> nat -> Pages, root: nat, td: TableDef, filter: Expr, offset: nat, limit: int,
                       ghost at: nat -> nat, ghost atRow: nat -> nat -> nat, ghost labels: seq<Labels>,
                       ghost states: seq<State>, ghost steps: seq<Step>, ghost i: nat, ghost j: nat, ghost id: nat, ghost t: nat)
    returns (r: ScanResult)
    requires IsTableRun(states, steps, labels) && OpenThroughout(states, steps, i, j, id)
    requires forall n :: i <= at(n) <= j && views(n) == states[at(n)].cache
    requires forall k, n :: i <= atRow(k)(n) <= j && gets(k)(n) == states[atRow(k)(n)].cache
    requires states[i].readers[id] < |states[i].versions| && root == RootPage(Snapshot(states[i], id).rt)
    requires states[i].readers[id] < |labels[i].versions|
    requires var d := labels[i].versions[states[i].readers[id]]; t < |d.tables| == |d.rows| && td == d.tables[t]
    ensures td.pkeys <= |td.cols| == |td.types|
    ensures Answers(r, filter, td, labels[i].versions[states[i].readers[id]].rows[t], offset, limit)
  {
    hide IsRun, RootOk, Iterable, CatalogOk, Contents, Agrees, IsPlan, PlanRange, InOrder, NoRepeats, RangeAccepted, PlanEncodes, RangeThrows, ScanOutcome;
    ghost var rt, d := Snapshot(states[i], id).rt, labels[i].versions[states[i].readers[id]];
    SnapshotLabel(states, steps, labels, i, id);
    TableInCatalog(d.m, d.tables, d.rows, t);
    forall n
      ensures Iterable(rt, views(n))
    {
      InPlaceThroughout(states, steps, i, j, id, at(n));
    }
    forall k, n
      ensures Iterable(rt, gets(k)(n))
    {
      InPlaceThroughout(states, steps, i, j, id, atRow(k)(n));
    }
    ghost var plan, visited;
    r, plan, visited := ScanFiltered(views, gets, root, td, filter, offset, limit, rt, d.rows[t]);
    ThrowsDecided(filter, td, plan);
  }

  /** Two numbers, the first of them the primary key. */
  const PAIRS: TableDef := TableDef(NAME, [COL_P, COL_A], [INT_64, INT_64], 1, [], 0, [])

  /** The same with the first prefix there is. */
  const STORED: TableDef := TableDef(NAME, [COL_P, COL_A], [INT_64, INT_64], 1, [], 3, [])

  function Pair(a: Int64): Record { Record([COL_P, COL_A], [Int(1), Int(a)]) }

  function PairRows(a: Int64): Rows { map[[Int(1)] := [Int(a)]] }

  lemma PairsAreNew()
    ensures Declarable(PAIRS) && NewTable(PAIRS, map[]) == STORED && Given(map[]) == 3
  {
  }

  lemma PairsFit()
    ensures KeyInLimit(DefKey(NAME)) && |EncodeDef(STORED)| <= MAX_VAL
  {
    var p, a := Column(COL_P, INT_64), Column(COL_A, INT_64);
    assert Columns(STORED.cols, STORED.types) == [p, a] && [p, a][1..] == [a] && [a][1..] == [];
    assert Many(ColumnLine, [a]) == ColumnLine(a) + Many(ColumnLine, []);
    assert Many(ColumnLine, [p, a]) == ColumnLine(p) + Many(ColumnLine, [a]);
  }

  lemma PairSupplied(a: Int64)
    ensures Supplies(STORED, Pair(a), 2) && Ordered(STORED, Pair(a), 2) == [Int(1), Int(a)]
  {
    var rec := Pair(a);
    assert STORED.cols[0] == COL_P && STORED.cols[1] == COL_A;
    assert Field(rec, COL_P) == Some(Int(1)) && Field(rec, COL_A) == Some(Int(a));
  }

  lemma PairDone(rows: Rows, shape: Root, a: Int64)
    ensures UpdateOutcome(STORED, rows, shape, [Int(1), Int(a)], UpdateOrInsert) == TableAccess.Outcome.Done
  {
    var row := [Int(1), Int(a)];
    assert row[..1] == [Int(1)] && row[1..] == [Int(a)];
    NumberCodes(1);
    NumberCodes(a);
  }

  lemma NumberCodes(a: Int64)
    ensures |Encode([Int(a)])| == 8
  {
    assert [Int(a)][1..] == [];
    assert Encode([Int(a)]) == Code(Int(a)) + Encode([]);
  }

  /** db_update of the one row, in a store that has this table alone. */
  method SetPair(kv: KV, tx: KVTX, a: Int64, ghost d: Db) returns (ghost b: Db)
    requires kv.Valid() && kv.Running(tx) && d.m == kv.TxMap() && CatalogOk(d.m, d.tables, d.rows)
    requires d.tables == [STORED] && (d.rows == [map[]] || exists old_a :: d.rows == [PairRows(old_a)])
    modifies kv`s, tx`root, tx.free`state, tx.free`g, tx.pages
    ensures kv.Valid() && kv.Running(tx) && b == Db(kv.TxMap(), [STORED], [PairRows(a)]) && CatalogOk(b.m, b.tables, b.rows)
    ensures Does(Put(0, [Int(1), Int(a)]), d, b)
  {
    hide KV.Valid, KV.Running, KV.TxMap, KV.TxShape, CatalogOk, UpdateOutcome, Does, Supplies;
    PairSupplied(a);
    PairDone(d.rows[0], kv.TxShape(), a);
    var r;
    ghost var after;
    r, after := UpdateRow(kv, tx, STORED, Pair(a), UpdateOrInsert, d.tables, d.rows, 0);
    OneRow(d.rows[0], a);
    b := Db(kv.TxMap(), [STORED], after);
  }

  lemma OneRow(rows: Rows, a: Int64)
    requires rows == map[] || exists old_a :: rows == PairRows(old_a)
    ensures rows[[Int(1), Int(a)][..1] := [Int(1), Int(a)][1..]] == PairRows(a)
  {
    assert [Int(1), Int(a)][..1] == [Int(1)] && [Int(1), Int(a)][1..] == [Int(a)];
  }

  /** The first transaction: the table and its row. */
  method CreatePair(kv: KV, tx: KVTX, a: Int64) returns (ghost b: Db)
    requires kv.Valid() && kv.Running(tx) && kv.TxMap() == map[]
    modifies kv`s, tx`root, tx.free`state, tx.free`g, tx.pages
    ensures kv.Valid() && kv.Running(tx) && b == Db(kv.TxMap(), [STORED], [PairRows(a)])
    ensures MadeFrom(NO_TABLES, b) && CatalogOk(b.m, b.tables, b.rows)
  {
    hide KV.Valid, KV.Running, KV.TxMap, CatalogOk, Does, Declarable, NewTable, Given, DefKey, EncodeDef, Chain;
    EmptyCatalog();
    PairsAreNew();
    PairsFit();
    var r := TableNew(kv, tx, PAIRS, [], []);
    assert [] + [STORED] == [STORED];
    ghost var none: Rows := map[];
    assert [] + [none] == [none];
    ghost var mid := Db(kv.TxMap(), [STORED], [map[]]);
    b := SetPair(kv, tx, a, mid);
    TwoOps(New(PAIRS), mid, Put(0, [Int(1), Int(a)]), b);
  }

  lemma TwoOps(op: TableOp, mid: Db, next: TableOp, b: Db)
    requires Does(op, NO_TABLES, mid) && Does(next, mid, b)
    ensures MadeFrom(NO_TABLES, b)
  {
    hide Does;
    assert Chain(NO_TABLES, [], NO_TABLES);
    ChainMore(NO_TABLES, [], NO_TABLES, op, mid);
    ChainMore(NO_TABLES, [] + [op], mid, next, b);
  }

  /** How many versions there are does not change under a transaction. */
  lemma VersionsUnderway(kv: KV, tx: KVTX)
    requires kv.Valid() && kv.Running(tx)
    ensures |kv.s.versions| == tx.free.version + 1
  {
    hide Inv, Reachable, Onward, KV.ReadersOk, KV.FieldsOk, KVTX.Valid, RootOk, RootFits;
    ReachableInv(kv.s);
    CurrentNum(kv.s);
  }

  /** Open a new file. */
  method NewStore(reliable: bool) returns (kv: KV)
    ensures fresh(kv) && fresh(kv.readers) && kv.reliable == reliable && kv.Valid() && kv.s.writer == Idle && HasLabels(kv.mark, START)
    ensures |kv.s.versions| == 1 && kv.readers.items == [] && kv.readers.open == map[]
  {
    hide HasLabels, LabelStep, FirstVersion, MetaPage.Valid;
    ghost var s := Init();
    assert IsRun([s], []) && EndsIn([s], s);
    kv := new KV(map[], Unsigned, reliable, Init());
    var ok := kv.Open();
    HasLabelsAtStart();
    OpenStart();
    HasLabelsAfter(Init(), START, OpenFile, START);
  }

  lemma OpenStart()
    ensures Enabled(Init(), OpenFile) && LabelStep(START, Init(), OpenFile, START)
  {
    hide FirstVersion;
    assert START.versions[..1] == START.versions;
  }

  lemma NewContents(b: Db)
    requires CatalogOk(b.m, b.tables, b.rows) && b.tables == [STORED]
    ensures b.m != map[]
  {
    DeclaredIs(b.m, b.tables, 0);
  }

  lemma ChangedContents(d: Db, a: Int64, b: Db, c: Int64)
    requires CatalogOk(d.m, d.tables, d.rows) && CatalogOk(b.m, b.tables, b.rows) && d.tables == b.tables == [STORED]
    requires d.rows == [PairRows(a)] && b.rows == [PairRows(c)] && a != c
    ensures b.m != d.m
  {
    hide Agrees, Declared, Accounted, Below;
    assert Agrees(d.m, STORED, d.rows[0]) && Agrees(b.m, STORED, b.rows[0]);
    assert PairRows(a)[[Int(1)]] != PairRows(c)[[Int(1)]];
    if b.m == d.m {
      Catalogs.AgreesRows(d.m, STORED, PairRows(a), PairRows(c));
      assert false;
    }
  }

  /** The first commit. */
  method CommitNew(kv: KV, a: Int64) returns (r: CommitResult, ghost l: Labels)
    requires kv.Valid() && kv.s.writer == Idle && HasLabels(kv.mark, START) && |kv.s.versions| == 1
    modifies kv
    ensures kv.Valid() && kv.s.writer == Idle && HasLabels(kv.mark, l)
    ensures HasLabels(kv.s, LabelsNow(l, kv.s)) && Labelled(kv.s, LabelsNow(l, kv.s))
    ensures kv.reliable ==> r.Durable?
    ensures r.Durable? ==>
              var ds := LabelsNow(l, kv.s).versions;
              |ds| == 2 && ds[0] == NO_TABLES && ds[1].tables == [STORED] && ds[1].rows == [PairRows(a)] && kv.durable == |kv.s.versions| - 1
  {
    hide KV.Valid, KV.Running, KV.TxMap, HasLabels, Labelled, MadeFrom, Contents, Does, Onward, CatalogOk, Grown;
    l := START;
    LabelsOf(kv, l);
    CurrentMap(kv.s, LabelsNow(l, kv.s));
    StartNow(kv.s);
    var tx := kv.Begin();
    VersionsUnderway(kv, tx);
    ghost var b := CreatePair(kv, tx, a);
    VersionsUnderway(kv, tx);
    StartNow(kv.s);
    NewContents(b);
    r, l := CommitTables(kv, tx, l, b);
  }

  /** A later one: the row gets another value. */
  method CommitChange(kv: KV, c: Int64, ghost a: Int64, ghost l: Labels) returns (r: CommitResult, ghost k: Labels)
    requires kv.Valid() && kv.s.writer == Idle && HasLabels(kv.mark, l) && LabelsNow(l, kv.s).versions != []
    requires var d := LabelsNow(l, kv.s).Last(); d.tables == [STORED] && d.rows == [PairRows(a)]
    modifies kv
    ensures kv.Valid() && kv.s.writer == Idle && HasLabels(kv.mark, k)
    ensures HasLabels(kv.s, LabelsNow(k, kv.s)) && Labelled(kv.s, LabelsNow(k, kv.s))
    ensures kv.reliable && a != c ==> r.Durable?
    ensures r.Durable? ==>
              var before, ds := LabelsNow(l, old(kv.s)).versions, LabelsNow(k, kv.s).versions;
              && |ds| == |before| + 1 && ds[..|before|] == before && ds[|before|].tables == [STORED] && ds[|before|].rows == [PairRows(c)]
              && Does(Put(0, [Int(1), Int(c)]), before[|before| - 1], ds[|before|])
              && kv.durable == |kv.s.versions| - 1
  {
    hide KV.Valid, KV.Running, KV.TxMap, HasLabels, Labelled, MadeFrom, Contents, Does, Onward, CatalogOk, Grown;
    LabelsOf(kv, l);
    ghost var now := LabelsNow(l, kv.s);
    CurrentMap(kv.s, now);
    var tx := kv.Begin();
    VersionsUnderway(kv, tx);
    ghost var d := SetPair(kv, tx, c, now.Last());
    VersionsUnderway(kv, tx);
    assert LabelsNow(l, kv.s) == now;
    OneOp(now.Last(), Put(0, [Int(1), Int(c)]), d);
    if a != c {
      ChangedContents(now.Last(), a, d, c);
    }
    r, k := CommitTables(kv, tx, l, d);
  }

  /** What a new reader gets for the row. */
  method ReadPair(kv: KV, ghost c: Int64, ghost l: Labels) returns (got: GetResult)
    requires kv.Valid() && kv.readers.items == [] && kv.readers.open == map[] && Labelled(kv.s, l)
    requires l.versions != [] && l.Last().tables == [STORED] && l.Last().rows == [PairRows(c)]
    modifies kv`s, kv.readers
    ensures kv.Valid() && got == Row(Pair(c)) && |kv.s.versions| == |old(kv.s.versions)|
  {
    hide KV.Valid, Labelled, Contents, CatalogOk, Enabled, After;
    CurrentVersion(kv);
    CurrentMap(kv.s, l);
    var reader := new KVReader(0);
    ghost var s := kv.s;
    kv.BeginRead(reader);
    ReadBegun(s, 0);
    var rec := Record([COL_P], [Int(1)]);
    KeySupplied();
    got := ReaderGet(kv, reader, STORED, rec, l.Last().tables, l.Last().rows, 0);
    GotPair(c);
  }

  lemma GotPair(c: Int64)
    ensures RowRecord(STORED, PairRows(c), [Int(1)]) == Pair(c)
  {
  }

  lemma ReadBegun(s: State, id: nat)
    requires Enabled(s, BeginRead(id))
    ensures After(s, BeginRead(id)).versions == s.versions
  {
  }

  lemma CurrentVersion(kv: KV)
    requires kv.Valid()
    ensures kv.s.versions != [] && kv.version == |kv.s.versions| - 1 && kv.readers.open == kv.s.readers
  {
    hide Inv, Reachable, Onward, MappingOk, Maps, RootsOk, ReaderHeap.Valid;
    ReachableInv(kv.s);
    CurrentNum(kv.s);
  }

  lemma KeySupplied()
    ensures var rec := Record([COL_P], [Int(1)]); Supplies(STORED, rec, 1) && Ordered(STORED, rec, 1) == [Int(1)]
  {
    var rec := Record([COL_P], [Int(1)]);
    assert STORED.cols[0] == COL_P && Field(rec, COL_P) == Some(Int(1));
  }

  /**
   * Two commits and a read, on a new file. When both commits publish, the history has exactly the three labels expected,
   * the second made from the first by an update of the row the first created, and a reader gets the new row. Whatever the
   * outcomes, the steps taken are a run of this kind.
   */
  method Session(reliable: bool, a: Int64, c: Int64) returns (kv: KV, first: CommitResult, second: CommitResult, got: GetResult, ghost k: Labels)
    ensures kv.Valid() && HasLabels(kv.s, k)
    ensures reliable && a != c ==> first.Durable? && second.Durable?
    ensures first.Durable? && second.Durable? ==>
              && |k.versions| == 3 && k.versions[0] == NO_TABLES
              && k.versions[1].tables == [STORED] && k.versions[1].rows == [PairRows(a)]
              && k.versions[2].tables == [STORED] && k.versions[2].rows == [PairRows(c)]
              && Does(Put(0, [Int(1), Int(c)]), k.versions[1], k.versions[2])
              && got == Row(Pair(c)) && kv.durable == 2
  {
    hide KV.Valid, HasLabels, Labelled, Does, LabelsNow;
    second, got := Unchanged, NoSuchRow;
    kv := NewStore(reliable);
    ghost var l;
    first, l := CommitNew(kv, a);
    k := LabelsNow(l, kv.s);
    if first != Durable {
      return;
    }
    second, l := CommitChange(kv, c, a, l);
    k := LabelsNow(l, kv.s);
    if second != Durable {
      return;
    }
    SameCount(kv.s, k);
    ghost var s := kv.s;
    got := ReadPair(kv, c, k);
    LabelsOf(kv, l);
    SameNow(l, s, kv.s);
  }

  lemma SameNow(l: Labels, s: State, t: State)
    requires |t.versions| == |s.versions|
    ensures LabelsNow(l, t) == LabelsNow(l, s)
  {
  }

  lemma OneOp(a: Db, op: TableOp, b: Db)
    requires Does(op, a, b)
    ensures MadeFrom(a, b)
  {
    hide Does;
    assert Chain(a, [], a);
    ChainMore(a, [], a, op, b);
  }

  lemma StartNow(s: State)
    requires |s.versions| == 1
    ensures LabelsNow(START, s) == START && START.Last() == NO_TABLES
  {
    assert START.versions + [] == START.versions;
  }
}

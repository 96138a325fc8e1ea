/** Reading rows through the store: what a reader or a transaction gets from db_get and from a filtered scan. */
module StoreQueries {
  import opened Bytes
  import opened TreeEdit
  import opened TreeShapes
  import BTrees
  import opened Iterators
  import opened ReaderHeaps
  import opened KvTx
  import opened KvStore
  import opened OrderPreserving
  import opened Tables
  import opened TableAccess
  import opened ScanRows
  import opened Catalogs
  import opened QlEvals
  import opened QlRanges
  import opened QlOutcomes
  import opened QlScans

  lemma TableInCatalog(m: map<Key, Key>, tables: seq<TableDef>, rows: seq<Rows>, t: nat)
    requires CatalogOk(m, tables, rows) && t < |tables|
    ensures |rows| == |tables| && Agrees(m, tables[t], rows[t]) && AllPrefixed(m) && TableOk(tables[t])
    ensures tables[t].pkeys <= |tables[t].cols| == |tables[t].types|
  {
    hide RowsAgree, IndexesAgree, RowsOk, Below, HasPrefix;
    TableSizes(tables[t]);
  }

  /**
   * What a filtered scan returns, in terms of the table's rows alone: a rejection exactly if the plan's range is not
   * accepted, an exception exactly if it then cannot be encoded, else the outcome of visiting the range's rows in the order of the tree picked.
   */
  ghost predicate Answers(r: ScanResult, filter: Expr, td: TableDef, rows: Rows, offset: nat, limit: int)
    requires td.pkeys <= |td.cols| == |td.types|
  {
    && (r.RangeRejected? <==> !RangeAccepted(filter, td))
    && (r.ScanThrows? <==> RangeThrows(filter, td))
    && (!r.RangeRejected? && !r.ScanThrows? ==>
          exists p, visited :: Visits(filter, td, rows, p, visited) && r == ScanOutcome(filter, td, rows, visited, offset, limit))
  }

  /** For every OFFSET and LIMIT there is one answer. */
  lemma AnswerIsUnique(r: ScanResult, q: ScanResult, filter: Expr, td: TableDef, rows: Rows, offset: nat, limit: int)
    requires td.pkeys <= |td.cols| == |td.types|
    requires Answers(r, filter, td, rows, offset, limit) && Answers(q, filter, td, rows, offset, limit)
    ensures r == q
  {
    hide IsPlan, PlanRange, ScanOutcome, RangeAccepted, RangeThrows, InOrder, NoRepeats, InBounds;
    if !r.RangeRejected? && !r.ScanThrows? {
      var p, a :| Visits(filter, td, rows, p, a) && r == ScanOutcome(filter, td, rows, a, offset, limit);
      var p2, b :| Visits(filter, td, rows, p2, b) && q == ScanOutcome(filter, td, rows, b, offset, limit);
      VisitsAreUnique(filter, td, rows, p, a, p2, b);
    }
  }

  /** The answer without a window: a failure only if some row fails, else all rows kept, once each. */
  lemma UnwindowedAnswer(r: ScanResult, filter: Expr, td: TableDef, rows: Rows)
    requires TableOk(td) && RowsOk(td, rows) && td.pkeys <= |td.cols| == |td.types| && Answers(r, filter, td, rows, 0, -1)
    ensures r.FilterFailed? ==> SomeRowFails(filter, td, rows)
    ensures r.Rows? ==> IsSelection(filter, td, rows, r.out)
  {
    hide IsPlan, PlanRange, InBounds, ScanOutcome, RangeAccepted, RangeThrows, RowKept, RowFails, KeptOf, NoRepeats, InOrder, TableOk, RowsOk, IsSelection;
    if !r.RangeRejected? && !r.ScanThrows? {
      var p, a :| Visits(filter, td, rows, p, a) && r == ScanOutcome(filter, td, rows, a, 0, -1);
      KeptAreAllKept(filter, td, rows, p, a);
      Unwindowed(filter, td, rows, a);
    }
  }

  /**
   * A filtered scan by a reader: whatever has committed, failed or is running since it began, its rows are those of the
   * version it began on.
   */
  method ReaderScan(kv: KV, tx: KVReader, td: TableDef, filter: Expr, offset: nat, limit: int,
                    ghost tables: seq<TableDef>, ghost rows: seq<Rows>, ghost t: nat)
    returns (r: ScanResult)
    requires kv.Valid() && tx in kv.readers.items && tx.version < |kv.s.versions|
    requires CatalogOk(Contents(kv.s.versions[tx.version].rt), tables, rows) && t < |tables| && td == tables[t]
    ensures |rows| == |tables| && td.pkeys <= |td.cols| == |td.types| && Answers(r, filter, td, rows[t], offset, limit)
  {
    hide KV.Valid, CatalogOk, Contents, Agrees, Iterable, IsPlan, PlanRange, InOrder, NoRepeats, RangeAccepted, PlanEncodes, RangeThrows, ScanOutcome;
    kv.ReaderTree(tx);
    ghost var rt := kv.s.versions[tx.version].rt;
    TableInCatalog(Contents(rt), tables, rows, t);
    ghost var plan, visited;
    var view := kv.cache;
    r, plan, visited := ScanFiltered(_ => view, _ => _ => view, tx.root, td, filter, offset, limit, rt, rows[t]);
    ThrowsDecided(filter, td, plan);
  }

  /** A filtered scan by the running transaction: it sees its own inserts, updates and deletes. */
  method WriterScan(kv: KV, tx: KVTX, td: TableDef, filter: Expr, offset: nat, limit: int,
                    ghost tables: seq<TableDef>, ghost rows: seq<Rows>, ghost t: nat)
    returns (r: ScanResult)
    requires kv.Valid() && kv.Running(tx) && CatalogOk(kv.TxMap(), tables, rows) && t < |tables| && td == tables[t]
    ensures |rows| == |tables| && td.pkeys <= |td.cols| == |td.types| && Answers(r, filter, td, rows[t], offset, limit)
  {
    hide KV.Valid, Matches, CatalogOk, Contents, Agrees, Iterable, IsPlan, PlanRange, InOrder, NoRepeats, RangeAccepted, PlanEncodes, RangeThrows, ScanOutcome;
    kv.TxTree(tx);
    TableInCatalog(kv.TxMap(), tables, rows, t);
    var view := tx.pages.mapped + tx.pages.updates;
    assert view == tx.View();
    ghost var plan, visited;
    r, plan, visited := ScanFiltered(_ => view, _ => _ => view, tx.root, td, filter, offset, limit, kv.s.writer.tx.rt, rows[t]);
    ThrowsDecided(filter, td, plan);
  }

  /** get_table_def_from_kv by a reader: the definition in its version. */
  method ReaderTableDef(kv: KV, tx: KVReader, name: Name, ghost tables: seq<TableDef>, ghost rows: seq<Rows>) returns (r: Definition)
    requires kv.Valid() && tx in kv.readers.items && tx.version < |kv.s.versions|
    requires CatalogOk(Contents(kv.s.versions[tx.version].rt), tables, rows)
    ensures Finds(r, name, tables)
  {
    hide KV.Valid, Contents, Agrees, Declared, Accounted, Finds;
    var got := kv.ReadGet(tx, DefKey(name));
    r := DefinitionOf(got, name, Contents(kv.s.versions[tx.version].rt), tables);
  }

  /** The same by the running transaction: it sees the tables that it has created itself. */
  method WriterTableDef(kv: KV, tx: KVTX, name: Name, ghost tables: seq<TableDef>, ghost rows: seq<Rows>) returns (r: Definition)
    requires kv.Valid() && kv.Running(tx) && CatalogOk(kv.TxMap(), tables, rows)
    ensures Finds(r, name, tables)
  {
    hide KV.Valid, KV.Running, KV.TxMap, Agrees, Declared, Accounted, Finds;
    var got := kv.TxGet(tx, DefKey(name));
    r := DefinitionOf(got, name, kv.TxMap(), tables);
  }

  /** db_get by a reader: the row of its version with this primary key. */
  method ReaderGet(kv: KV, tx: KVReader, td: TableDef, rec: Record,
                   ghost tables: seq<TableDef>, ghost rows: seq<Rows>, ghost t: nat)
    returns (r: GetResult)
    requires kv.Valid() && tx in kv.readers.items && tx.version < |kv.s.versions| && |rec.cols| == |rec.vals|
    requires CatalogOk(Contents(kv.s.versions[tx.version].rt), tables, rows) && t < |tables| && td == tables[t]
    ensures |rows| == |tables| && td.pkeys <= |td.cols| == |td.types| && (r.BadRecord? <==> !Supplies(td, rec, td.pkeys))
    ensures !r.BadRecord? ==>
              var pk := Ordered(td, rec, td.pkeys);
              r == if !Storable(pk) then GetThrows else if pk in rows[t] then Row(RowRecord(td, rows[t], pk)) else NoSuchRow
  {
    hide KV.Valid, CatalogOk, Contents, Agrees, Iterable, Supplies, RowRecord;
    kv.ReaderTree(tx);
    ghost var rt := kv.s.versions[tx.version].rt;
    TableInCatalog(Contents(rt), tables, rows, t);
    var view := kv.cache;
    r := DbGet(_ => view, tx.root, td, rec, rt, rows[t]);
  }

  /** db_get by the running transaction: it sees its own changes. */
  method WriterGet(kv: KV, tx: KVTX, td: TableDef, rec: Record,
                   ghost tables: seq<TableDef>, ghost rows: seq<Rows>, ghost t: nat)
    returns (r: GetResult)
    requires kv.Valid() && kv.Running(tx) && |rec.cols| == |rec.vals|
    requires CatalogOk(kv.TxMap(), tables, rows) && t < |tables| && td == tables[t]
    ensures |rows| == |tables| && td.pkeys <= |td.cols| == |td.types| && (r.BadRecord? <==> !Supplies(td, rec, td.pkeys))
    ensures !r.BadRecord? ==>
              var pk := Ordered(td, rec, td.pkeys);
              r == if !Storable(pk) then GetThrows else if pk in rows[t] then Row(RowRecord(td, rows[t], pk)) else NoSuchRow
  {
    hide KV.Valid, Matches, CatalogOk, Contents, Agrees, Iterable, Supplies, RowRecord;
    kv.TxTree(tx);
    TableInCatalog(kv.TxMap(), tables, rows, t);
    var view := tx.pages.mapped + tx.pages.updates;
    assert view == tx.View();
    r := DbGet(_ => view, tx.root, td, rec, kv.s.writer.tx.rt, rows[t]);
  }

  /**
   * db_update on one of many tables. Done leaves all of them consistent, with this one row bound; so does every refusal,
   * with nothing changed.
   */
  method UpdateRow(kv: KV, tx: KVTX, td: TableDef, rec: Record, mode: UpdateMode,
                   ghost tables: seq<TableDef>, ghost rows: seq<Rows>, ghost t: nat)
    returns (r: Outcome, ghost after: seq<Rows>)
    requires kv.Valid() && kv.Running(tx) && |rec.cols| == |rec.vals|
    requires CatalogOk(kv.TxMap(), tables, rows) && t < |tables| && td == tables[t]
    modifies kv`s, tx`root, tx.free`state, tx.free`g, tx.pages
    ensures |rows| == |tables| && td.pkeys <= |td.cols| == |td.types|
    ensures r.Done? || r.Malformed? || r.Refused? ==> kv.Valid() && kv.Running(tx) && CatalogOk(kv.TxMap(), tables, after)
    ensures r.Malformed? || r.Refused? ==> after == rows
    ensures r.Malformed? <==> !Supplies(td, rec, |td.cols|)
    ensures r.Done? ==>
              && Supplies(td, rec, |td.cols|)
              && var row := Ordered(td, rec, |td.cols|);
                 && after == rows[t := rows[t][row[..td.pkeys] := row[td.pkeys..]]]
                 && Does(Put(t, row), Db(old(kv.TxMap()), tables, rows), Db(kv.TxMap(), tables, after))
    ensures !r.Malformed? ==>
              && Supplies(td, rec, |td.cols|) && |td.indexes| == |td.indexPrefixes|
              && var row := Ordered(td, rec, |td.cols|);
                 && r == UpdateOutcome(td, rows[t], old(kv.TxShape()), row, mode)
                 && (r.Refused? ==> (mode.InsertOnly? && row[..td.pkeys] in rows[t]) || (mode.UpdateOnly? && row[..td.pkeys] !in rows[t]))
                 && (r.Done? ==> (mode.InsertOnly? ==> row[..td.pkeys] !in rows[t]) && (mode.UpdateOnly? ==> row[..td.pkeys] in rows[t]))
  {
    hide KV.Valid, KV.Running, KV.TxMap, Matches, CatalogOk, Contents, Agrees, Iterable, Supplies, OthersSame, UpdateOutcome, KV.TxShape;
    after := rows;
    ghost var m := kv.TxMap();
    TableInCatalog(m, tables, rows, t);
    r := DbUpdate(kv, tx, td, rec, mode, rows[t]);
    if r.Done? {
      ghost var row := Ordered(td, rec, |td.cols|);
      ghost var now := rows[t][row[..td.pkeys] := row[td.pkeys..]];
      CatalogAfterTableChange(m, kv.TxMap(), tables, rows, t, now);
      after := rows[t := now];
    }
  }

  /** db_delete on one of many tables. */
  method DeleteRow(kv: KV, tx: KVTX, td: TableDef, rec: Record,
                   ghost tables: seq<TableDef>, ghost rows: seq<Rows>, ghost t: nat)
    returns (r: Outcome, ghost after: seq<Rows>)
    requires kv.Valid() && kv.Running(tx) && |rec.cols| == |rec.vals|
    requires CatalogOk(kv.TxMap(), tables, rows) && t < |tables| && td == tables[t]
    modifies kv`s, tx`root, tx.free`state, tx.free`g, tx.pages
    ensures |rows| == |tables| && td.pkeys <= |td.cols| == |td.types|
    ensures !r.Crashed? ==> kv.Valid() && kv.Running(tx) && CatalogOk(kv.TxMap(), tables, after)
    ensures !r.Crashed? && !r.Done? ==> after == rows
    ensures r.Malformed? <==> !Supplies(td, rec, td.pkeys)
    ensures r.Done? ==>
              && Supplies(td, rec, td.pkeys)
              && var pk := Ordered(td, rec, td.pkeys);
                 && pk in rows[t] && after == rows[t := rows[t] - {pk}]
                 && Does(Drop(t, pk), Db(old(kv.TxMap()), tables, rows), Db(kv.TxMap(), tables, after))
    ensures !r.Malformed? ==>
              && Supplies(td, rec, td.pkeys) && |td.indexes| == |td.indexPrefixes|
              && var pk := Ordered(td, rec, td.pkeys);
                 && r == DeleteOutcome(td, rows[t], old(kv.TxShape()), pk)
                 && (r.Refused? ==> pk !in rows[t]) && (r.Thrown? ==> !Storable(pk) || !BTrees.KeyInLimit(RowKey(td, pk)))
                 && (r.Crashed? ==> pk in rows[t] && !ChainFits(old(kv.TxShape()), RowKeys(td, pk + rows[t][pk])))
                 && (r.Done? || r.Refused? ==> after == rows[t := rows[t] - {pk}])
  {
    hide KV.Valid, KV.Running, KV.TxMap, Matches, CatalogOk, Contents, Agrees, Iterable, Supplies, OthersSame, DeleteOutcome, KV.TxShape;
    after := rows;
    ghost var m := kv.TxMap();
    TableInCatalog(m, tables, rows, t);
    r := DbDelete(kv, tx, td, rec, rows[t]);
    if r.Done? {
      ghost var now := rows[t] - {Ordered(td, rec, td.pkeys)};
      CatalogAfterTableChange(m, kv.TxMap(), tables, rows, t, now);
      after := rows[t := now];
    } else if r.Refused? {
      assert rows[t] - {Ordered(td, rec, td.pkeys)} == rows[t];
    }
  }

  /** After db_update succeeds, db_get with the row's primary key returns the row. */
  method UpdateThenGet(kv: KV, tx: KVTX, td: TableDef, rec: Record, key: Record, mode: UpdateMode,
                       ghost tables: seq<TableDef>, ghost rows: seq<Rows>, ghost t: nat)
    returns (r: Outcome, got: GetResult)
    requires kv.Valid() && kv.Running(tx) && |rec.cols| == |rec.vals| && |key.cols| == |key.vals|
    requires CatalogOk(kv.TxMap(), tables, rows) && t < |tables| && td == tables[t]
    requires td.pkeys <= |td.cols| == |td.types| && Supplies(td, rec, |td.cols|) && Supplies(td, key, td.pkeys)
    requires Ordered(td, key, td.pkeys) == Ordered(td, rec, |td.cols|)[..td.pkeys]
    modifies kv`s, tx`root, tx.free`state, tx.free`g, tx.pages
    ensures r.Done? ==> got == Row(Record(td.cols, Ordered(td, rec, |td.cols|)))
  {
    hide KV.Valid, KV.Running, KV.TxMap, KV.TxShape, CatalogOk, Supplies, UpdateOutcome, Does, Ordered, Storable;
    got := NoSuchRow;
    ghost var after, row, shape := rows, Ordered(td, rec, |td.cols|), kv.TxShape();
    r, after := UpdateRow(kv, tx, td, rec, mode, tables, rows, t);
    if r.Done? {
      StoredParts(td, rows[t], shape, row, mode);
      got := WriterGet(kv, tx, td, key, tables, after, t);
    }
  }

  lemma StoredParts(td: TableDef, rows: Rows, shape: Root, row: Row, mode: UpdateMode)
    requires |td.indexes| == |td.indexPrefixes| && td.pkeys <= |row| && UpdateOutcome(td, rows, shape, row, mode).Done?
    ensures Storable(row[..td.pkeys]) && row[..td.pkeys] + row[td.pkeys..] == row && BTrees.KeyInLimit(RowKey(td, row[..td.pkeys]))
  {
    hide UpdateOutcome, RowKey, Encode, ChainFits, GrownRoot, IndexKeys, IndexKeysFit, BTrees.KeyInLimit;
    UpdateCauses(td, rows, shape, row, mode);
  }

  /** After db_delete, whether or not the row was there, db_get finds none. */
  method DeleteThenGet(kv: KV, tx: KVTX, td: TableDef, key: Record, ghost tables: seq<TableDef>, ghost rows: seq<Rows>, ghost t: nat)
    returns (r: Outcome, got: GetResult)
    requires kv.Valid() && kv.Running(tx) && |key.cols| == |key.vals|
    requires CatalogOk(kv.TxMap(), tables, rows) && t < |tables| && td == tables[t]
    modifies kv`s, tx`root, tx.free`state, tx.free`g, tx.pages
    ensures r.Done? || r.Refused? ==> got == NoSuchRow
  {
    hide KV.Valid, KV.Running, KV.TxMap, KV.TxShape, CatalogOk, Supplies, DeleteOutcome, Does, Ordered, Storable;
    got := BadRecord;
    ghost var after, shape := rows, kv.TxShape();
    r, after := DeleteRow(kv, tx, td, key, tables, rows, t);
    if r == Done || r == Outcome.Refused {
      ghost var pk := Ordered(td, key, td.pkeys);
      KeyStorable(td, rows[t], shape, pk);
      assert pk !in after[t];
      got := WriterGet(kv, tx, td, key, tables, after, t);
    }
  }

  lemma KeyStorable(td: TableDef, rows: Rows, shape: Root, pk: seq<Value>)
    requires |td.indexes| == |td.indexPrefixes| && td.pkeys <= |pk| && !DeleteOutcome(td, rows, shape, pk).Thrown?
    ensures Storable(pk)
  {
    hide DeleteOutcome, RowKey, ChainFits, RowKeys, BTrees.KeyInLimit;
    DeleteCauses(td, rows, shape, pk);
  }

  /** Of two insertions with one primary key the second is refused, and db_get returns the first row. */
  method InsertRowTwice(kv: KV, tx: KVTX, td: TableDef, first: Record, second: Record, key: Record,
                        ghost tables: seq<TableDef>, ghost rows: seq<Rows>, ghost t: nat)
    returns (a: Outcome, b: Outcome, got: GetResult)
    requires kv.Valid() && kv.Running(tx) && |first.cols| == |first.vals| && |second.cols| == |second.vals| && |key.cols| == |key.vals|
    requires CatalogOk(kv.TxMap(), tables, rows) && t < |tables| && td == tables[t] && td.pkeys <= |td.cols| == |td.types|
    requires Supplies(td, first, |td.cols|) && Supplies(td, second, |td.cols|) && Supplies(td, key, td.pkeys)
    requires Ordered(td, first, |td.cols|)[..td.pkeys] == Ordered(td, second, |td.cols|)[..td.pkeys] == Ordered(td, key, td.pkeys)
    requires Storable(Ordered(td, second, |td.cols|))
    modifies kv`s, tx`root, tx.free`state, tx.free`g, tx.pages
    ensures a.Done? ==> b.Refused? && got == Row(Record(td.cols, Ordered(td, first, |td.cols|)))
  {
    hide KV.Valid, KV.Running, KV.TxMap, KV.TxShape, CatalogOk, Supplies, UpdateOutcome, Does, Ordered, Storable;
    b, got := Malformed, NoSuchRow;
    ghost var one, two, shape := rows, rows, kv.TxShape();
    ghost var row, other := Ordered(td, first, |td.cols|), Ordered(td, second, |td.cols|);
    a, one := UpdateRow(kv, tx, td, first, InsertOnly, tables, rows, t);
    if a != Done {
      return;
    }
    StoredParts(td, rows[t], shape, row, InsertOnly);
    shape := kv.TxShape();
    b, two := UpdateRow(kv, tx, td, second, InsertOnly, tables, one, t);
    InsertRefused(td, one[t], shape, row, other);
    got := WriterGet(kv, tx, td, key, tables, two, t);
  }

  lemma InsertRefused(td: TableDef, now: Rows, shape: Root, row: Row, other: Row)
    requires |td.indexes| == |td.indexPrefixes| && td.pkeys <= |row| && td.pkeys <= |other| && row[..td.pkeys] == other[..td.pkeys]
    requires Storable(row[..td.pkeys]) && BTrees.KeyInLimit(RowKey(td, row[..td.pkeys])) && Storable(other)
    requires row[..td.pkeys] in now
    ensures UpdateOutcome(td, now, shape, other, InsertOnly).Refused?
  {
    hide UpdateOutcome, RowKey, Encode, ChainFits, GrownRoot, IndexKeys, IndexKeysFit, BTrees.KeyInLimit;
    UpdateCauses(td, now, shape, other, InsertOnly);
  }
}

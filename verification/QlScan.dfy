/** Scanning with a filter (scan_rows in src/ql/ql_exec.cpp): narrowed reads, the same rows. */
module QlScans {
  import opened Bytes
  import opened Nodes
  import opened FreeLists
  import opened Trees
  import opened TreeEdit
  import opened Iterators
  import opened OrderPreserving
  import opened Tables
  import opened TableAccess
  import opened Scans
  import opened ScanRows
  import opened QlEvals
  import opened QlRanges
  import opened QlOutcomes

  // ------------------------------------------------------------ the rows a scan visits

  /** Each entry of hits is the key of the row at the same place in pks. */
  ghost predicate Listed(td: TableDef, rows: Rows, tree: int, hits: seq<Entry>, pks: seq<seq<Value>>)
    requires TableOk(td) && RowsOk(td, rows) && -1 <= tree < |td.indexes|
  {
    |pks| == |hits| && forall i :: 0 <= i < |pks| ==> pks[i] in rows && IsTreeKey(td, tree, rows, pks[i], hits[i].key)
  }

  /** The rows a scan's entries belong to, one each. */
  lemma {:induction false} ListRows(td: TableDef, rows: Rows, tree: int, hits: seq<Entry>) returns (pks: seq<seq<Value>>)
    requires TableOk(td) && RowsOk(td, rows) && -1 <= tree < |td.indexes|
    requires forall e :: e in hits ==> exists pk :: pk in rows && IsTreeKey(td, tree, rows, pk, e.key)
    ensures Listed(td, rows, tree, hits, pks)
  {
    hide TableOk, RowsOk, IsTreeKey;
    if hits == [] {
      pks := [];
    } else {
      assert hits[0] in hits;
      var pk :| pk in rows && IsTreeKey(td, tree, rows, pk, hits[0].key);
      var rest := ListRows(td, rows, tree, hits[1..]);
      pks := [pk] + rest;
    }
  }

  /** Exactly the rows between the bounds have a key among hits. */
  ghost predicate HitsAreRange(td: TableDef, rows: Rows, tree: int, r: Range, hits: seq<Entry>)
    requires TableOk(td) && RowsOk(td, rows) && -1 <= tree < |td.indexes|
  {
    && r.Parallel() && (forall c :: c in r.key1.cols ==> c in td.cols) && (forall c :: c in r.key2.cols ==> c in td.cols)
    && (forall e :: e in hits ==> exists pk :: pk in rows && IsTreeKey(td, tree, rows, pk, e.key))
    && (forall pk :: pk in rows ==> |pk + rows[pk]| == |td.cols|)
    && (forall pk :: pk in rows ==>
          (InBounds(td, pk + rows[pk], r.cmp1, r.key1, r.cmp2, r.key2) <==> exists e :: e in hits && IsTreeKey(td, tree, rows, pk, e.key)))
  }

  lemma ScanHitsAreRange(root: Root, view: Pages, td: TableDef, rows: Rows, tree: int, r: Range, hits: seq<Entry>)
    requires Iterable(root, view) && root.Rooted? && Agrees(Contents(root), td, rows) && AllPrefixed(Contents(root))
    requires TableOk(td) && RowsOk(td, rows) && r.Parallel() && Starts(td, tree, r.cmp1, r.cmp2, r.key1, r.key2)
    requires IsRange(hits, FlatT(root.t), r.cmp1, BoundKey(td, tree, r.key1, r.cmp1), r.cmp2, BoundKey(td, tree, r.key2, r.cmp2))
    ensures -1 <= tree < |td.indexes| && HitsAreRange(td, rows, tree, r, hits)
  {
    hide Iterable, Agrees, Contents, FlatT, TableOk, RowsOk, BoundKey, IsTreeKey, InBounds, Starts, IsRange;
    AcceptedTree(td, tree, r);
    ScanVisitsRows(root, view, td, rows, tree, hits, r.cmp1, r.key1, r.cmp2, r.key2);
  }

  lemma ListIsRange(td: TableDef, rows: Rows, tree: int, r: Range, hits: seq<Entry>, es: seq<Entry>, pks: seq<seq<Value>>)
    requires TableOk(td) && RowsOk(td, rows) && r.Parallel() && Starts(td, tree, r.cmp1, r.cmp2, r.key1, r.key2)
    requires IsRange(hits, es, r.cmp1, BoundKey(td, tree, r.key1, r.cmp1), r.cmp2, BoundKey(td, tree, r.key2, r.cmp2))
    requires -1 <= tree < |td.indexes| && Listed(td, rows, tree, hits, pks) && HitsAreRange(td, rows, tree, r, hits)
    ensures ListsRange(td, rows, tree, r, pks)
  {
    hide TableOk, RowsOk, BoundKey, IsTreeKey, InBounds, Starts, IsRange, RowBefore, NoRepeats;
    forall i, j | 0 <= i < j < |pks|
      ensures if r.cmp1.Forward() then RowBefore(td, rows, tree, pks[i], pks[j]) else RowBefore(td, rows, tree, pks[j], pks[i])
      ensures pks[i] != pks[j]
    {
      HitsInOrder(hits, es, r, td, tree, i, j);
      if r.cmp1.Forward() {
        KeysInOrder(td, rows, tree, pks[i], pks[j], hits[i].key, hits[j].key);
      } else {
        KeysInOrder(td, rows, tree, pks[j], pks[i], hits[j].key, hits[i].key);
      }
    }
    AllDifferent(pks);
    ListedRows(td, rows, tree, hits, pks);
  }

  lemma HitsInOrder(hits: seq<Entry>, es: seq<Entry>, r: Range, td: TableDef, tree: int, i: nat, j: nat)
    requires TableOk(td) && r.Parallel() && Starts(td, tree, r.cmp1, r.cmp2, r.key1, r.key2)
    requires IsRange(hits, es, r.cmp1, BoundKey(td, tree, r.key1, r.cmp1), r.cmp2, BoundKey(td, tree, r.key2, r.cmp2))
    requires i < j < |hits|
    ensures if r.cmp1.Forward() then Lt(hits[i].key, hits[j].key) else Lt(hits[j].key, hits[i].key)
  {
    hide BoundKey, CmpOk, Starts, TableOk, Lt;
  }

  /** The order of two rows' keys is the order of their columns. */
  lemma KeysInOrder(td: TableDef, rows: Rows, tree: int, p: seq<Value>, q: seq<Value>, key: Key, other: Key)
    requires TableOk(td) && RowsOk(td, rows) && -1 <= tree < |td.indexes| && p in rows && q in rows
    requires IsTreeKey(td, tree, rows, p, key) && IsTreeKey(td, tree, rows, q, other) && Lt(key, other)
    ensures RowBefore(td, rows, tree, p, q) && p != q
  {
    hide TableOk, TreeKey, Lt;
    VisitedInOrder(td, tree, p + rows[p], q + rows[q]);
    if p == q {
      BeforeIsOneWay(td, rows, tree, p, q);
    }
  }

  /** A row is listed exactly if one of the entries is its key. */
  lemma ListedRows(td: TableDef, rows: Rows, tree: int, hits: seq<Entry>, pks: seq<seq<Value>>)
    requires TableOk(td) && RowsOk(td, rows) && -1 <= tree < |td.indexes| && Listed(td, rows, tree, hits, pks)
    ensures forall pk :: pk in pks ==> pk in rows
    ensures forall pk :: pk in rows ==> (pk in pks <==> exists e :: e in hits && IsTreeKey(td, tree, rows, pk, e.key))
  {
    hide TableOk, RowsOk, IsTreeKey;
    forall pk | pk in rows
      ensures pk in pks <==> exists e :: e in hits && IsTreeKey(td, tree, rows, pk, e.key)
    {
      if pk in pks {
        var i :| 0 <= i < |pks| && pks[i] == pk;
        assert hits[i] in hits;
      }
      if exists e :: e in hits && IsTreeKey(td, tree, rows, pk, e.key) {
        var e :| e in hits && IsTreeKey(td, tree, rows, pk, e.key);
        var i :| 0 <= i < |hits| && hits[i] == e;
        TreeKeysDistinct(td, rows, tree, pk, pks[i], e.key);
        assert pks[i] in pks;
      }
    }
  }

  lemma AcceptedTree(td: TableDef, tree: int, r: Range)
    requires TableOk(td) && r.Parallel() && Starts(td, tree, r.cmp1, r.cmp2, r.key1, r.key2)
    ensures -1 <= tree < |td.indexes|
  {
  }

  /** The rows a whole scan visits, in its order. */
  lemma Visit(root: Root, view: Pages, td: TableDef, rows: Rows, tree: int, r: Range, hits: seq<Entry>) returns (pks: seq<seq<Value>>)
    requires Iterable(root, view) && Agrees(Contents(root), td, rows) && AllPrefixed(Contents(root))
    requires TableOk(td) && RowsOk(td, rows) && r.Parallel() && Starts(td, tree, r.cmp1, r.cmp2, r.key1, r.key2)
    requires root.Rooted? ==>
               IsRange(hits, FlatT(root.t), r.cmp1, BoundKey(td, tree, r.key1, r.cmp1), r.cmp2, BoundKey(td, tree, r.key2, r.cmp2))
    requires root.Empty? ==> hits == []
    ensures -1 <= tree < |td.indexes| && Listed(td, rows, tree, hits, pks) && ListsRange(td, rows, tree, r, pks)
  {
    hide Iterable, Agrees, Contents, FlatT, TableOk, RowsOk, BoundKey, IsTreeKey, InBounds, Starts, IsRange;
    AcceptedTree(td, tree, r);
    if root.Rooted? {
      ScanHitsAreRange(root, view, td, rows, tree, r, hits);
      pks := ListRows(td, rows, tree, hits);
      ListIsRange(td, rows, tree, r, hits, FlatT(root.t), pks);
    } else {
      pks := [];
      NoRows(root, td, rows);
      AcceptedCols(td, tree, r);
    }
  }

  lemma AcceptedCols(td: TableDef, tree: int, r: Range)
    requires TableOk(td) && r.Parallel() && Starts(td, tree, r.cmp1, r.cmp2, r.key1, r.key2)
    ensures (forall c :: c in r.key1.cols ==> c in td.cols) && (forall c :: c in r.key2.cols ==> c in td.cols)
  {
    BoundCols(td, tree, r.key1);
    BoundCols(td, tree, r.key2);
  }

  lemma ListedInRows(td: TableDef, rows: Rows, tree: int, hits: seq<Entry>, pks: seq<seq<Value>>)
    requires TableOk(td) && RowsOk(td, rows) && -1 <= tree < |td.indexes| && Listed(td, rows, tree, hits, pks)
    ensures |pks| == |hits| && forall pk :: pk in pks ==> pk in rows && |pk + rows[pk]| == |td.cols|
    ensures forall i :: 0 <= i < |pks| ==> pks[i] in rows && IsTreeKey(td, tree, rows, pks[i], hits[i].key)
  {
    hide IsTreeKey, TableOk;
    forall pk | pk in pks
      ensures pk in rows && |pk + rows[pk]| == |td.cols|
    {
      RowStorable(td, pk + rows[pk]);
    }
  }

  /** The entries a scan has to visit are entries of the tree, past the sentinel. */
  ghost predicate HitsInTree(root: Root, hits: seq<Entry>)
  {
    forall e :: e in hits ==> root.Rooted? && exists i :: 1 <= i < |FlatT(root.t)| && FlatT(root.t)[i] == e
  }

  lemma ScanHitsInTree(root: Root, td: TableDef, tree: int, r: Range, hits: seq<Entry>)
    requires TableOk(td) && r.Parallel() && Starts(td, tree, r.cmp1, r.cmp2, r.key1, r.key2)
    requires root.Rooted? ==>
               IsRange(hits, FlatT(root.t), r.cmp1, BoundKey(td, tree, r.key1, r.cmp1), r.cmp2, BoundKey(td, tree, r.key2, r.cmp2))
    requires root.Empty? ==> hits == []
    ensures HitsInTree(root, hits)
  {
    hide BoundKey, CmpOk, Starts, TableOk;
  }

  // ------------------------------------------------------------ the loop

  /** Taking one more row into a window, or not, as the loop's counters decide. */
  lemma WindowStep<T>(s: seq<T>, x: T, offset: nat, limit: int)
    ensures |s| < offset ==> Window(s + [x], offset, limit) == Window(s, offset, limit) == []
    ensures |s| >= offset && (limit < 0 || |s| - offset < limit) ==>
              |Window(s, offset, limit)| == |s| - offset && Window(s + [x], offset, limit) == Window(s, offset, limit) + [x]
    ensures |s| >= offset && 0 <= limit <= |s| - offset ==> Window(s + [x], offset, limit) == Window(s, offset, limit)
  {
  }

  /** A full window does not change with what comes later. */
  lemma WindowFull<T>(s: seq<T>, t: seq<T>, offset: nat, limit: int)
    requires |s| >= offset && 0 <= limit <= |s| - offset
    ensures Window(s + t, offset, limit) == Window(s, offset, limit)
  {
  }

  lemma KeptHead(filter: Expr, td: TableDef, rows: Rows, pks: seq<seq<Value>>)
    requires (forall q :: q in pks ==> q in rows) && pks != []
    ensures KeptOf(filter, td, rows, pks) ==
            (if RowKept(filter, td, rows, pks[0]) then [pks[0]] else []) + KeptOf(filter, td, rows, pks[1..])
  {
  }

  lemma {:induction false} KeptConcat(filter: Expr, td: TableDef, rows: Rows, a: seq<seq<Value>>, b: seq<seq<Value>>)
    requires (forall q :: q in a ==> q in rows) && (forall q :: q in b ==> q in rows)
    ensures forall q :: q in a + b ==> q in rows
    ensures KeptOf(filter, td, rows, a + b) == KeptOf(filter, td, rows, a) + KeptOf(filter, td, rows, b)
  {
    hide KeptOf, RowKept;
    if a == [] {
      assert a + b == b;
      KeptNone(filter, td, rows);
    } else {
      assert (a + b)[1..] == a[1..] + b && (a + b)[0] == a[0];
      KeptHead(filter, td, rows, a);
      KeptHead(filter, td, rows, a + b);
      KeptConcat(filter, td, rows, a[1..], b);
    }
  }

  lemma KeptNone(filter: Expr, td: TableDef, rows: Rows)
    ensures KeptOf(filter, td, rows, []) == []
  {
  }

  /** What the loop has gathered after the rows pks: those kept, past the offset and up to the limit. */
  ghost predicate Gathered(filter: Expr, td: TableDef, rows: Rows, pks: seq<seq<Value>>, offset: nat, limit: int,
                           skipped: nat, taken: nat, out: seq<Record>)
    requires forall pk :: pk in pks ==> pk in rows
  {
    var kept := KeptOf(filter, td, rows, pks);
    && skipped == (if |kept| < offset then |kept| else offset)
    && taken == |Window(kept, offset, limit)|
    && (forall pk :: pk in Window(kept, offset, limit) ==> pk in rows)
    && out == RecordsOf(td, rows, Window(kept, offset, limit))
    && (forall pk :: pk in pks ==> !RowFails(filter, td, rows, pk))
  }

  lemma StartGathering(filter: Expr, td: TableDef, rows: Rows, offset: nat, limit: int)
    ensures Gathered(filter, td, rows, [], offset, limit, 0, 0, [])
  {
  }

  /** One more row seen. */
  lemma GatherStep(filter: Expr, td: TableDef, rows: Rows, pks: seq<seq<Value>>, offset: nat, limit: int,
                   skipped: nat, taken: nat, out: seq<Record>, pk: seq<Value>)
    requires (forall q :: q in pks ==> q in rows) && pk in rows && !RowFails(filter, td, rows, pk)
    requires Gathered(filter, td, rows, pks, offset, limit, skipped, taken, out)
    ensures forall q :: q in pks + [pk] ==> q in rows
    ensures !RowKept(filter, td, rows, pk) ==> Gathered(filter, td, rows, pks + [pk], offset, limit, skipped, taken, out)
    ensures RowKept(filter, td, rows, pk) && skipped < offset ==>
              Gathered(filter, td, rows, pks + [pk], offset, limit, skipped + 1, taken, out)
    ensures RowKept(filter, td, rows, pk) && skipped >= offset && (limit < 0 || taken < limit) ==>
              Gathered(filter, td, rows, pks + [pk], offset, limit, skipped, taken + 1, out + [RowRecord(td, rows, pk)])
  {
    hide RowKept, RowFails, Window, KeptOf;
    KeptAppend(filter, td, rows, pks, pk);
    var kept := KeptOf(filter, td, rows, pks);
    WindowStep(kept, pk, offset, limit);
    KeptInRows(filter, td, rows, pks + [pk], offset, limit);
    WindowSize(kept, offset, limit);
    if RowKept(filter, td, rows, pk) && skipped >= offset && (limit < 0 || taken < limit) {
      RecordsAppend(td, rows, Window(kept, offset, limit), pk);
    }
    assert KeptOf(filter, td, rows, pks) + [] == KeptOf(filter, td, rows, pks);
  }

  lemma WindowSize<T>(s: seq<T>, offset: nat, limit: int)
    ensures |s| < offset ==> Window(s, offset, limit) == []
    ensures |s| >= offset ==> |Window(s, offset, limit)| == if 0 <= limit < |s| - offset then limit else |s| - offset
  {
  }

  lemma RecordsAppend(td: TableDef, rows: Rows, pks: seq<seq<Value>>, pk: seq<Value>)
    requires (forall q :: q in pks ==> q in rows) && pk in rows
    ensures forall q :: q in pks + [pk] ==> q in rows
    ensures RecordsOf(td, rows, pks + [pk]) == RecordsOf(td, rows, pks) + [RowRecord(td, rows, pk)]
  {
  }

  /** When the limit is reached, the rows not seen do not matter. */
  lemma GatheredAll(filter: Expr, td: TableDef, rows: Rows, all: seq<seq<Value>>, k: nat, offset: nat, limit: int,
                    skipped: nat, taken: nat, out: seq<Record>)
    requires k <= |all| && (forall q :: q in all ==> q in rows) && (forall q :: q in all[..k] ==> q in rows)
    requires Gathered(filter, td, rows, all[..k], offset, limit, skipped, taken, out)
    requires k == |all| || (skipped >= offset && 0 <= limit <= taken)
    requires ReadOf(filter, td, rows, all, Room(offset, limit)) == all[..k]
    ensures ScanOutcome(filter, td, rows, all, offset, limit) == Rows(out)
  {
    hide RowKept, RowFails, Window, KeptOf, ReadOf;
    KeptInRows(filter, td, rows, all, offset, limit);
    if k == |all| {
      assert all[..k] == all;
    } else {
      assert all == all[..k] + all[k..];
      KeptConcat(filter, td, rows, all[..k], all[k..]);
      var kept := KeptOf(filter, td, rows, all[..k]);
      WindowSize(kept, offset, limit);
      WindowFull(kept, KeptOf(filter, td, rows, all[k..]), offset, limit);
    }
  }

  // ------------------------------------------------------------ how far the loop has read

  /** The first k rows have been read, and left is the room that they leave; negative if there is no limit. */
  ghost predicate ReadSoFar(filter: Expr, td: TableDef, rows: Rows, all: seq<seq<Value>>, k: nat, room: int, left: int)
    requires (forall pk :: pk in all ==> pk in rows) && k <= |all|
  {
    ReadOf(filter, td, rows, all, room) == all[..k] + ReadOf(filter, td, rows, all[k..], left)
  }

  lemma NothingRead(filter: Expr, td: TableDef, rows: Rows, all: seq<seq<Value>>, room: int)
    requires forall pk :: pk in all ==> pk in rows
    ensures ReadSoFar(filter, td, rows, all, 0, room, room)
  {
    assert all[0..] == all && all[..0] == [];
  }

  lemma ReadStep(filter: Expr, td: TableDef, rows: Rows, all: seq<seq<Value>>, k: nat, room: int, left: int)
    requires (forall pk :: pk in all ==> pk in rows) && k < |all| && ReadSoFar(filter, td, rows, all, k, room, left)
    ensures all[k] in all
    ensures RowFails(filter, td, rows, all[k]) ==> all[k] in ReadOf(filter, td, rows, all, room)
    ensures !(left == 0 && RowKept(filter, td, rows, all[k])) ==>
              ReadSoFar(filter, td, rows, all, k + 1, room, if RowKept(filter, td, rows, all[k]) then left - 1 else left)
    ensures left == 0 && RowKept(filter, td, rows, all[k]) ==> ReadOf(filter, td, rows, all, room) == all[..k]
  {
    hide RowKept, RowFails, ReadOf;
    RestAt(all, k);
    ReadHead(filter, td, rows, all[k..], left);
    FailingIsNotKept(filter, td, rows, all[k]);
    var kept := RowKept(filter, td, rows, all[k]);
    if !(left == 0 && kept) {
      OneMoreRead(all, k, ReadOf(filter, td, rows, all[k + 1..], if kept then left - 1 else left));
    }
  }

  lemma OneMoreRead<T>(s: seq<T>, k: nat, later: seq<T>)
    requires k < |s|
    ensures s[..k] + ([s[k]] + later) == s[..k + 1] + later && s[k] in s[..k] + ([s[k]] + later)
  {
    RestAt(s, k);
  }

  lemma RestAt<T>(s: seq<T>, k: nat)
    requires k < |s|
    ensures s[k] in s && s[k..] != [] && s[k..][0] == s[k] && s[k..][1..] == s[k + 1..] && s[..k + 1] == s[..k] + [s[k]]
  {
  }

  lemma FailingIsNotKept(filter: Expr, td: TableDef, rows: Rows, pk: seq<Value>)
    requires pk in rows
    ensures !(RowFails(filter, td, rows, pk) && RowKept(filter, td, rows, pk))
  {
  }

  lemma AllRead(filter: Expr, td: TableDef, rows: Rows, all: seq<seq<Value>>, room: int, left: int)
    requires (forall pk :: pk in all ==> pk in rows) && ReadSoFar(filter, td, rows, all, |all|, room, left)
    ensures ReadOf(filter, td, rows, all, room) == all[..|all|]
  {
  }

  /** The counters say whether there is room. */
  lemma RoomLeft(filter: Expr, td: TableDef, rows: Rows, pks: seq<seq<Value>>, offset: nat, limit: int,
                 skipped: nat, taken: nat, out: seq<Record>)
    requires (forall q :: q in pks ==> q in rows) && Gathered(filter, td, rows, pks, offset, limit, skipped, taken, out)
    ensures Room(offset, limit) - (skipped + taken) == 0 <==> skipped >= offset && limit >= 0 && taken >= limit
  {
    hide RowKept, RowFails, Window, KeptOf;
    WindowSize(KeptOf(filter, td, rows, pks), offset, limit);
  }

  /** Where a row's record stands with the filter. */
  lemma RecordJudged(filter: Expr, td: TableDef, rows: Rows, pk: seq<Value>)
    requires pk in rows && |pk + rows[pk]| == |td.cols|
    ensures var v := Eval(filter, RowRecord(td, rows, pk));
            && (RowFails(filter, td, rows, pk) <==> !filter.Uninit? && !(v.Some? && v.value.Int?))
            && (!RowFails(filter, td, rows, pk) ==> (RowKept(filter, td, rows, pk) <==> filter.Uninit? || v.value.n != 0))
  {
  }

  /** The tree is in place in every page read of every row's lookup. */
  ghost predicate InPlaceEach(root: Root, gets: nat -> nat -> Pages)
  {
    forall k :: InPlace(root, gets(k))
  }

  /** The next row of a scan, as a record, with what the filter makes of it. */
  method NextRow(sc: Scanner, views: nat -> Pages, ptr: nat, td: TableDef, filter: Expr,
                 ghost root: Root, ghost rows: Rows, ghost hits: seq<Entry>, ghost visited: seq<seq<Value>>, ghost k: nat)
    returns (rec: Record, v: Option<Value>)
    requires InPlace(root, views) && ptr == RootPage(root)
    requires Agrees(Contents(root), td, rows) && AllPrefixed(Contents(root)) && TableOk(td) && RowsOk(td, rows)
    requires -1 <= sc.tree < |td.indexes| && Listed(td, rows, sc.tree, hits, visited) && HitsInTree(root, hits)
    requires k < |hits| && sc.Positioned() && sc.Remaining() == hits[k..]
    ensures visited[k] in visited && visited[k] in rows && rec == RowRecord(td, rows, visited[k])
    ensures v == Eval(filter, rec)
    ensures RowFails(filter, td, rows, visited[k]) <==> !filter.Uninit? && !(v.Some? && v.value.Int?)
    ensures !RowFails(filter, td, rows, visited[k]) ==>
              (RowKept(filter, td, rows, visited[k]) <==> filter.Uninit? || v.value.n != 0)
  {
    hide Iterable, InPlace, Agrees, Contents, FlatT, TableOk, RowsOk, IsTreeKey, RowKept, RowFails, Eval, BIter.Valid, BIter.Index, Rest;
    ListedInRows(td, rows, sc.tree, hits, visited);
    assert hits[k..][0] == hits[k] && hits[k] in hits && visited[k] in visited;
    rec := Deref(sc, views, ptr, td, root, rows, visited[k]);
    RecordJudged(filter, td, rows, visited[k]);
    v := Eval(filter, rec);
  }

  /** scan_rows' loop over a scanner that has been positioned; the k-th row is looked up in the pages of gets(k). */
  method GatherRows(sc: Scanner, gets: nat -> nat -> Pages, ptr: nat, td: TableDef, filter: Expr, offset: nat, limit: int,
                    ghost root: Root, ghost rows: Rows, ghost hits: seq<Entry>, ghost visited: seq<seq<Value>>)
    returns (r: ScanResult)
    requires InPlaceEach(root, gets) && ptr == RootPage(root)
    requires Agrees(Contents(root), td, rows) && AllPrefixed(Contents(root)) && TableOk(td) && RowsOk(td, rows)
    requires -1 <= sc.tree < |td.indexes| && Listed(td, rows, sc.tree, hits, visited) && HitsInTree(root, hits)
    requires sc.Positioned() && sc.Remaining() == hits && |hits| == |visited|
    requires forall pk :: pk in visited ==> pk in rows
    modifies sc.iter
    ensures r == ScanOutcome(filter, td, rows, visited, offset, limit)
  {
    hide Iterable, InPlace, Agrees, Contents, FlatT, TableOk, RowsOk, IsTreeKey, RowKept, RowFails, Eval, Progress, HitsInTree, RowRecord, Rest,
      ScanOutcome, BIter.Valid, BIter.Index, Scanner.Remaining, Scanner.Positioned;
    var out: seq<Record>, skipped, taken := [], 0, 0;
    var k := 0;
    LoopStart(filter, td, rows, visited, offset, limit);
    var more := sc.IsValid();
    while more
      invariant k <= |hits| == |visited| && sc.Positioned() && sc.Remaining() == hits[k..] && (more <==> k < |hits|)
      invariant Progress(filter, td, rows, visited, k, offset, limit, skipped, taken, out)
      decreases |hits| - k
    {
      var rec, v := NextRow(sc, gets(k), ptr, td, filter, root, rows, hits, visited, k);
      LoopStep(filter, td, rows, visited, k, offset, limit, skipped, taken, out);
      if !filter.Uninit? && !(v.Some? && v.value.Int?) {
        return FilterFailed;
      }
      assert hits[k..][1..] == hits[k + 1..];
      if filter.Uninit? || v.value.n != 0 {
        if skipped < offset {
          skipped := skipped + 1;
        } else {
          if limit >= 0 && taken >= limit {
            return Rows(out);
          }
          out := out + [rec];
          taken := taken + 1;
        }
      }
      k := k + 1;
      sc.Next();
      more := sc.IsValid();
    }
    LoopEnd(filter, td, rows, visited, offset, limit, skipped, taken, out);
    r := Rows(out);
  }

  /** After the first k rows: what has been gathered, and how much room is left. */
  ghost predicate Progress(filter: Expr, td: TableDef, rows: Rows, all: seq<seq<Value>>, k: nat, offset: nat, limit: int,
                           skipped: nat, taken: nat, out: seq<Record>)
    requires forall pk :: pk in all ==> pk in rows
  {
    && k <= |all| && (forall q :: q in all[..k] ==> q in rows)
    && Gathered(filter, td, rows, all[..k], offset, limit, skipped, taken, out)
    && ReadSoFar(filter, td, rows, all, k, Room(offset, limit), Room(offset, limit) - (skipped + taken))
  }

  lemma LoopStart(filter: Expr, td: TableDef, rows: Rows, all: seq<seq<Value>>, offset: nat, limit: int)
    requires forall pk :: pk in all ==> pk in rows
    ensures Progress(filter, td, rows, all, 0, offset, limit, 0, 0, [])
  {
    StartGathering(filter, td, rows, offset, limit);
    NothingRead(filter, td, rows, all, Room(offset, limit));
  }

  /** What the next row does, by where it stands with the filter and the window. */
  lemma LoopStep(filter: Expr, td: TableDef, rows: Rows, all: seq<seq<Value>>, k: nat, offset: nat, limit: int,
                 skipped: nat, taken: nat, out: seq<Record>)
    requires (forall pk :: pk in all ==> pk in rows) && k < |all|
    requires Progress(filter, td, rows, all, k, offset, limit, skipped, taken, out)
    ensures all[k] in rows
    ensures RowFails(filter, td, rows, all[k]) ==> ScanOutcome(filter, td, rows, all, offset, limit) == FilterFailed
    ensures !RowFails(filter, td, rows, all[k]) && !RowKept(filter, td, rows, all[k]) ==>
              Progress(filter, td, rows, all, k + 1, offset, limit, skipped, taken, out)
    ensures !RowFails(filter, td, rows, all[k]) && RowKept(filter, td, rows, all[k]) ==>
              if skipped < offset then Progress(filter, td, rows, all, k + 1, offset, limit, skipped + 1, taken, out)
              else if limit >= 0 && taken >= limit then ScanOutcome(filter, td, rows, all, offset, limit) == Rows(out)
              else Progress(filter, td, rows, all, k + 1, offset, limit, skipped, taken + 1, out + [RowRecord(td, rows, all[k])])
  {
    hide RowKept, RowFails, Gathered, ReadSoFar, ReadOf, ScanOutcome, RowRecord;
    var room := Room(offset, limit);
    var left := room - (skipped + taken);
    var pk := all[k];
    assert all[..k + 1] == all[..k] + [pk];
    ReadStep(filter, td, rows, all, k, room, left);
    RoomLeft(filter, td, rows, all[..k], offset, limit, skipped, taken, out);
    if RowFails(filter, td, rows, pk) {
      FailsThere(filter, td, rows, all, pk, offset, limit);
    } else {
      GatherStep(filter, td, rows, all[..k], offset, limit, skipped, taken, out, pk);
      if RowKept(filter, td, rows, pk) && skipped >= offset && 0 <= limit <= taken {
        GatheredAll(filter, td, rows, all, k, offset, limit, skipped, taken, out);
      }
    }
  }

  lemma LoopEnd(filter: Expr, td: TableDef, rows: Rows, all: seq<seq<Value>>, offset: nat, limit: int,
                skipped: nat, taken: nat, out: seq<Record>)
    requires forall pk :: pk in all ==> pk in rows
    requires Progress(filter, td, rows, all, |all|, offset, limit, skipped, taken, out)
    ensures ScanOutcome(filter, td, rows, all, offset, limit) == Rows(out)
  {
    hide RowKept, RowFails, Gathered, ReadSoFar, ReadOf, ScanOutcome;
    AllRead(filter, td, rows, all, Room(offset, limit), Room(offset, limit) - (skipped + taken));
    GatheredAll(filter, td, rows, all, |all|, offset, limit, skipped, taken, out);
  }

  lemma FailsThere(filter: Expr, td: TableDef, rows: Rows, all: seq<seq<Value>>, pk: seq<Value>, offset: nat, limit: int)
    requires (forall q :: q in all ==> q in rows) && pk in all && RowFails(filter, td, rows, pk)
    requires pk in ReadOf(filter, td, rows, all, Room(offset, limit))
    ensures ScanOutcome(filter, td, rows, all, offset, limit) == FilterFailed
  {
    hide RowFails, RowKept, ReadOf, KeptOf;
  }

  /**
   * scan_rows, reading only the range that the filter is narrowed to. The range is rejected exactly as
   * RangeAccepted says; else the answer is the outcome, for this OFFSET and LIMIT, of visiting the rows of that range in
   * the order of the tree picked for it. Every page may be read in a state of its own: views(n) for the scanner's n-th
   * read, gets(k) for the lookup of the k-th row.
   */
  method ScanFiltered(views: nat -> Pages, gets: nat -> nat -> Pages, ptr: nat, td: TableDef, filter: Expr, offset: nat, limit: int,
                      ghost root: Root, ghost rows: Rows)
    returns (r: ScanResult, ghost plan: Plan, ghost visited: seq<seq<Value>>)
    requires InPlace(root, views) && InPlaceEach(root, gets) && ptr == RootPage(root)
    requires Agrees(Contents(root), td, rows) && AllPrefixed(Contents(root))
    ensures td.pkeys <= |td.cols| == |td.types| && IsPlan(filter, td, plan)
    ensures r.RangeRejected? <==> !RangeAccepted(filter, td)
    ensures r.ScanThrows? <==> RangeAccepted(filter, td) && !PlanEncodes(filter, td, plan)
    ensures !r.RangeRejected? && !r.ScanThrows? ==>
              Visits(filter, td, rows, plan, visited) && r == ScanOutcome(filter, td, rows, visited, offset, limit)
  {
    hide Iterable, InPlace, Agrees, Contents, FlatT, TableOk, RowsOk, BoundKey, IsTreeKey, InBounds, Starts, Accepts, PlanEncodes, IsRange, Rest, Collect, FitIs, Best,
      Narrowed, Chosen, RowKept, RowFails, KeptOf, Window, Eval, Gathered, ListsRange, HitsAreRange, RangeAccepted, ScanOutcome, BIter.Valid,
      BIter.Index;
    AgreesRows(Contents(root), td, rows);
    TableSizes(td);
    visited := [];
    var rg, tree, f := QlRange(filter, td);
    NarrowedFits(filter, td, tree, f);
    var sc := new Scanner(rg.cmp1, rg.cmp2, rg.key1, rg.key2);
    var start := sc.DbScan(views, ptr, td, root);
    ghost var w :| Chosen(td, sc.key1.cols, w) && (!start.Rejected? <==> Accepts(td, w, sc.cmp1, sc.cmp2, sc.key1, sc.key2))
                   && (start.Ready? <==> Starts(td, w, sc.cmp1, sc.cmp2, sc.key1, sc.key2)) && (start.Ready? ==> sc.tree == w);
    plan := Plan(tree, f, w);
    AcceptanceDecided(filter, td, tree, f, w);
    PlanEncodesIs(filter, td, plan, rg);
    if start.Rejected? {
      return RangeRejected, plan, visited;
    }
    if start.Throws? {
      return ScanThrows, plan, visited;
    }
    r, visited := ReadRange(sc, gets, ptr, td, filter, offset, limit, root, rows, rg);
  }

  /** Read the range of a scanner that has been positioned. */
  method ReadRange(sc: Scanner, gets: nat -> nat -> Pages, ptr: nat, td: TableDef, filter: Expr, offset: nat, limit: int,
                   ghost root: Root, ghost rows: Rows, ghost rg: Range)
    returns (r: ScanResult, ghost visited: seq<seq<Value>>)
    requires InPlaceEach(root, gets) && ptr == RootPage(root)
    requires Agrees(Contents(root), td, rows) && AllPrefixed(Contents(root)) && TableOk(td) && RowsOk(td, rows)
    requires rg.Parallel() && Starts(td, sc.tree, rg.cmp1, rg.cmp2, rg.key1, rg.key2) && sc.Positioned()
    requires root.Rooted? ==>
               IsRange(sc.Remaining(), FlatT(root.t), rg.cmp1, BoundKey(td, sc.tree, rg.key1, rg.cmp1), rg.cmp2, BoundKey(td, sc.tree, rg.key2, rg.cmp2))
    requires root.Empty? ==> sc.Remaining() == []
    modifies sc.iter
    ensures ListsRange(td, rows, sc.tree, rg, visited) && r == ScanOutcome(filter, td, rows, visited, offset, limit)
  {
    hide Iterable, Agrees, Contents, FlatT, TableOk, RowsOk, BoundKey, IsTreeKey, InBounds, BoundFits, Encodable, IsRange, Rest, RowKept, RowFails,
      InOrder, NoRepeats, ScanOutcome, BIter.Valid, BIter.Index, Scanner.Remaining, Scanner.Positioned, Listed, HitsInTree, AllPrefixed;
    ghost var hits := sc.Remaining();
    assert InPlace(root, gets(0)) && Iterable(root, gets(0)(0));
    visited := Visit(root, gets(0)(0), td, rows, sc.tree, rg, hits);
    AcceptedTree(td, sc.tree, rg);
    ListedInRows(td, rows, sc.tree, hits, visited);
    ScanHitsInTree(root, td, sc.tree, rg, hits);
    r := GatherRows(sc, gets, ptr, td, filter, offset, limit, root, rows, hits, visited);
  }

  lemma PlanEncodesIs(filter: Expr, td: TableDef, p: Plan, r: Range)
    requires TableOk(td) && td.pkeys <= |td.cols| == |td.types| && IsPlan(filter, td, p)
    requires r == PlanRange(filter, td, p.tree, p.fit) && r.Parallel()
    ensures PlanEncodes(filter, td, p) <==> Starts(td, p.picked, r.cmp1, r.cmp2, r.key1, r.key2)
    ensures Starts(td, p.picked, r.cmp1, r.cmp2, r.key1, r.key2) ==> Accepts(td, p.picked, r.cmp1, r.cmp2, r.key1, r.key2)
  {
    hide IsPlan, PlanRange, Encodable, BoundFits;
  }
}

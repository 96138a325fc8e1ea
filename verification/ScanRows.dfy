/** What a scan means for the rows of a table, and reading rows through one (src/access/scanner.cpp, table_access.cpp). */
module ScanRows {
  import opened Bytes
  import opened Nodes
  import opened Entries
  import opened FreeLists
  import opened Trees
  import opened TreeEdit
  import opened Iterators
  import opened OrderPreserving
  import opened RowCodec
  import opened Tables
  import opened TableAccess
  import opened Scans

  /** The key of a row in the tree numbered tree: its own for -1, else its entry in that index. */
  ghost function TreeKey(td: TableDef, tree: int, row: Row): Key
    requires -1 <= tree < |td.indexes| == |td.indexPrefixes| && td.pkeys <= |row|
  {
    if tree < 0 then RowKey(td, row[..td.pkeys]) else IndexKey(td, tree, row)
  }

  /** The row's columns satisfy both bounds, each compared as a tuple of the columns it names. */
  ghost predicate InBounds(td: TableDef, row: Row, cmp1: Cmp, key1: Record, cmp2: Cmp, key2: Record)
    requires |row| == |td.cols| && |key1.cols| == |key1.vals| && |key2.cols| == |key2.vals|
    requires (forall c :: c in key1.cols ==> c in td.cols) && (forall c :: c in key2.cols ==> c in td.cols)
  {
    && TupleCmp(Project(td, key1.cols, row), cmp1, key1.vals)
    && TupleCmp(Project(td, key2.cols, row), cmp2, key2.vals)
  }

  // ------------------------------------------------------------ one key against one bound

  lemma TreeKeyIs(td: TableDef, tree: int, row: Row)
    requires TableOk(td) && -1 <= tree < |td.indexes| && RowOk(td, row)
    ensures |row| == |td.cols| && td.pkeys <= |row| && (forall c :: c in TreeCols(td, tree) ==> c in td.cols)
    ensures var t := Project(td, TreeCols(td, tree), row);
            && Storable(t) && Types(t) == ColTypes(td, TreeCols(td, tree))
            && TreeKey(td, tree, row) == EncodeKey(TreePrefix(td, tree), t)
  {
    hide Encode, EncodeKey;
    RowStorable(td, row);
    TreeKnown(td, tree);
    ProjectTypes(td, TreeCols(td, tree), row);
    ProjectPk(td, row);
    if tree >= 0 {
      IndexKeyParts(td, tree, row);
    }
  }

  /** Comparing a row's key with an encoded bound is comparing its columns with the bound's values. */
  lemma KeyMeetsBound(td: TableDef, tree: int, row: Row, key: Record, cmp: Cmp)
    requires TableOk(td) && -1 <= tree < |td.indexes| && RowOk(td, row)
    requires |key.cols| == |key.vals| && BoundFits(td, TreeCols(td, tree), key)
    requires Encodable(td, tree, key, cmp)
    ensures |row| == |td.cols| && td.pkeys <= |row| && forall c :: c in key.cols ==> c in td.cols
    ensures CmpOk(TreeKey(td, tree, row), cmp, BoundKey(td, tree, key, cmp)) <==> TupleCmp(Project(td, key.cols, row), cmp, key.vals)
  {
    hide EncodePartial, TupleCmp, CmpOk, TreeKey, EncodeKey;
    var cols := TreeCols(td, tree);
    TreeKeyIs(td, tree, row);
    BoundTyped(td, tree, key);
    PrefixKnown(td, cols, key.cols);
    PartialBoundCuts(TreePrefix(td, tree), Project(td, cols, row), key.vals, ColTypes(td, cols), cmp);
    ProjectPrefix(td, cols, row, |key.cols|);
  }

  /** A key within both bounds is under the scanned tree's prefix. */
  lemma HitUnderPrefix(td: TableDef, tree: int, key: Key, cmp1: Cmp, key1: Record, cmp2: Cmp, key2: Record)
    requires TableOk(td) && |key1.cols| == |key1.vals| && |key2.cols| == |key2.vals|
    requires Starts(td, tree, cmp1, cmp2, key1, key2) && |key| >= PREFIX_SIZE
    requires CmpOk(key, cmp1, BoundKey(td, tree, key1, cmp1)) && CmpOk(key, cmp2, BoundKey(td, tree, key2, cmp2))
    ensures HasPrefix(key, TreePrefix(td, tree))
  {
    hide CmpOk, Encode, BigEndian, Padding, BoundFits, TableOk;
    TableSizes(td);
    TreeKnown(td, tree);
    BigEndianOf(key[..4]);
    FourBytes();
    var p := FromBigEndian(key[..4]);
    assert key == PrefixCode(p) + key[4..];
    BoundParts(td, tree, key1, cmp1);
    BoundParts(td, tree, key2, cmp2);
    var b1, b2 := BoundKey(td, tree, key1, cmp1)[4..], BoundKey(td, tree, key2, cmp2)[4..];
    RangeStaysInPrefix(TreePrefix(td, tree), p, key[4..], b1, cmp1, b2, cmp2);
  }

  lemma FourBytes()
    ensures Power(4) == PREFIX_LIMIT
  {
    assert Power(0) == 1 && Power(1) == 256 && Power(2) == 0x1_0000 && Power(3) == 0x100_0000;
  }

  lemma BoundParts(td: TableDef, tree: int, key: Record, cmp: Cmp)
    requires TableOk(td) && -1 <= tree < |td.indexes| && |key.cols| == |key.vals| && BoundFits(td, TreeCols(td, tree), key)
    requires Encodable(td, tree, key, cmp)
    ensures |BoundKey(td, tree, key, cmp)| >= 4
    ensures BoundKey(td, tree, key, cmp) == PrefixCode(TreePrefix(td, tree)) + BoundKey(td, tree, key, cmp)[4..]
  {
    hide Encode, Padding, BigEndian;
    BoundTyped(td, tree, key);
    var b := BoundKey(td, tree, key, cmp);
    assert b[..4] == PrefixCode(TreePrefix(td, tree));
    assert b == b[..4] + b[4..];
  }

  // ------------------------------------------------------------ the scanned entries and the rows

  /** The entries of a tree but the sentinel are its map. */
  lemma EntriesAreMap(root: Root, view: Pages)
    requires Iterable(root, view) && root.Rooted?
    ensures forall i :: 1 <= i < |FlatT(root.t)| ==>
              FlatT(root.t)[i].key in Contents(root) && Contents(root)[FlatT(root.t)[i].key] == FlatT(root.t)[i].val
    ensures forall key :: key in Contents(root) ==> exists i :: 1 <= i < |FlatT(root.t)| && FlatT(root.t)[i].key == key
  {
    hide ShapedT, StoredT;
    var es := FlatT(root.t);
    AsMapKeys(es);
    forall i | 1 <= i < |es|
      ensures es[i].key in Contents(root) && Contents(root)[es[i].key] == es[i].val
    {
      AsMapAt(es, i);
      SentinelOnly(view, root, i);
    }
    forall key | key in Contents(root)
      ensures exists i :: 1 <= i < |es| && es[i].key == key
    {
      assert Has(es, key);
      var i :| 0 <= i < |es| && es[i].key == key;
      SentinelOnly(view, root, i);
    }
  }

  ghost predicate IsTreeKey(td: TableDef, tree: int, rows: Rows, pk: seq<Value>, key: Key)
    requires TableOk(td) && RowsOk(td, rows) && -1 <= tree < |td.indexes| && pk in rows
  {
    td.pkeys <= |pk + rows[pk]| && TreeKey(td, tree, pk + rows[pk]) == key
  }

  lemma KeyOfSomeRow(m: map<Key, Key>, td: TableDef, rows: Rows, tree: int, key: Key) returns (pk: seq<Value>)
    requires Agrees(m, td, rows) && -1 <= tree < |td.indexes| && key in m && HasPrefix(key, TreePrefix(td, tree))
    ensures pk in rows && IsTreeKey(td, tree, rows, pk, key)
  {
    hide Encode, HasPrefix, EncodeKey, Project;
    if tree < 0 {
      pk :| pk in rows && RowKey(td, pk) == key;
      assert (pk + rows[pk])[..td.pkeys] == pk;
    } else {
      assert IndexAgrees(m, td, tree, rows);
      pk :| pk in rows && IndexKey(td, tree, pk + rows[pk]) == key;
    }
  }

  lemma RowHasKey(m: map<Key, Key>, td: TableDef, rows: Rows, tree: int, pk: seq<Value>)
    requires Agrees(m, td, rows) && -1 <= tree < |td.indexes| && pk in rows
    ensures td.pkeys <= |pk + rows[pk]| && TreeKey(td, tree, pk + rows[pk]) in m
    ensures tree < 0 ==> Storable(rows[pk]) && m[TreeKey(td, tree, pk + rows[pk])] == Encode(rows[pk])
    ensures tree >= 0 ==> m[TreeKey(td, tree, pk + rows[pk])] == []
  {
    hide Encode, HasPrefix, EncodeKey, Project;
    assert (pk + rows[pk])[..td.pkeys] == pk;
    assert tree >= 0 ==> IndexAgrees(m, td, tree, rows);
  }

  /** Two rows never share a key of any tree. */
  lemma TreeKeysDistinct(td: TableDef, rows: Rows, tree: int, p: seq<Value>, q: seq<Value>, key: Key)
    requires TableOk(td) && RowsOk(td, rows) && -1 <= tree < |td.indexes| && p in rows && q in rows
    requires IsTreeKey(td, tree, rows, p, key) && IsTreeKey(td, tree, rows, q, key)
    ensures p == q
  {
    hide RowKey, IndexKey, TableOk;
    if tree < 0 {
      assert (p + rows[p])[..td.pkeys] == p && (q + rows[q])[..td.pkeys] == q;
      if p != q {
        OtherRowKey(td, rows, p, q);
      }
    } else {
      IndexKeyTellsPk(td, tree, p, rows[p], q, rows[q]);
    }
  }

  /**
   * A scan visits exactly the rows whose columns satisfy both bounds: every visited entry is the key of one of them, and
   * each of them is visited.
   */
  lemma ScanVisitsRows(root: Root, view: Pages, td: TableDef, rows: Rows, tree: int, hits: seq<Entry>,
                       cmp1: Cmp, key1: Record, cmp2: Cmp, key2: Record)
    requires Iterable(root, view) && root.Rooted? && Agrees(Contents(root), td, rows) && AllPrefixed(Contents(root))
    requires |key1.cols| == |key1.vals| && |key2.cols| == |key2.vals| && Starts(td, tree, cmp1, cmp2, key1, key2)
    requires IsRange(hits, FlatT(root.t), cmp1, BoundKey(td, tree, key1, cmp1), cmp2, BoundKey(td, tree, key2, cmp2))
    ensures (forall c :: c in key1.cols ==> c in td.cols) && (forall c :: c in key2.cols ==> c in td.cols)
    ensures forall pk :: pk in rows ==> |pk + rows[pk]| == |td.cols| && td.pkeys <= |td.cols|
    ensures forall e :: e in hits ==> exists pk :: pk in rows && IsTreeKey(td, tree, rows, pk, e.key)
    ensures forall pk :: pk in rows ==>
              (InBounds(td, pk + rows[pk], cmp1, key1, cmp2, key2) <==> exists e :: e in hits && IsTreeKey(td, tree, rows, pk, e.key))
  {
    hide FlatT, Contents, Iterable, BoundKey, Agrees, IsTreeKey, TableOk, CmpOk, TupleCmp, BoundFits, HasPrefix;
    EntriesAreMap(root, view);
    AgreesRows(Contents(root), td, rows);
    BoundCols(td, tree, key1);
    BoundCols(td, tree, key2);
    forall e | e in hits
      ensures exists pk :: pk in rows && IsTreeKey(td, tree, rows, pk, e.key)
    {
      HitUnderPrefix(td, tree, e.key, cmp1, key1, cmp2, key2);
      var pk := KeyOfSomeRow(Contents(root), td, rows, tree, e.key);
    }
    forall pk | pk in rows
      ensures InBounds(td, pk + rows[pk], cmp1, key1, cmp2, key2) <==> exists e :: e in hits && IsTreeKey(td, tree, rows, pk, e.key)
    {
      RowVisited(root, view, td, rows, tree, hits, cmp1, key1, cmp2, key2, pk);
    }
  }

  lemma BoundCols(td: TableDef, tree: int, key: Record)
    requires TableOk(td) && -1 <= tree < |td.indexes| && |key.cols| == |key.vals| && BoundFits(td, TreeCols(td, tree), key)
    ensures forall c :: c in key.cols ==> c in td.cols
  {
    TreeKnown(td, tree);
    PrefixKnown(td, TreeCols(td, tree), key.cols);
  }

  lemma AgreesRows(m: map<Key, Key>, td: TableDef, rows: Rows)
    requires Agrees(m, td, rows)
    ensures TableOk(td) && RowsOk(td, rows)
    ensures td.pkeys <= |td.cols| && forall pk :: pk in rows ==> |pk| == td.pkeys && RowOk(td, pk + rows[pk]) && |pk + rows[pk]| == |td.cols|
  {
    forall pk | pk in rows
      ensures |pk + rows[pk]| == |td.cols|
    {
      RowStorable(td, pk + rows[pk]);
    }
  }

  lemma RowVisited(root: Root, view: Pages, td: TableDef, rows: Rows, tree: int, hits: seq<Entry>,
                   cmp1: Cmp, key1: Record, cmp2: Cmp, key2: Record, pk: seq<Value>)
    requires Iterable(root, view) && root.Rooted? && Agrees(Contents(root), td, rows)
    requires TableOk(td) && RowsOk(td, rows) && pk in rows && RowOk(td, pk + rows[pk]) && |pk + rows[pk]| == |td.cols|
    requires |key1.cols| == |key1.vals| && |key2.cols| == |key2.vals| && Starts(td, tree, cmp1, cmp2, key1, key2)
    requires (forall c :: c in key1.cols ==> c in td.cols) && (forall c :: c in key2.cols ==> c in td.cols)
    requires IsRange(hits, FlatT(root.t), cmp1, BoundKey(td, tree, key1, cmp1), cmp2, BoundKey(td, tree, key2, cmp2))
    ensures InBounds(td, pk + rows[pk], cmp1, key1, cmp2, key2) <==> exists e :: e in hits && IsTreeKey(td, tree, rows, pk, e.key)
  {
    hide FlatT, Contents, Iterable, BoundKey, Agrees, TableOk, RowsOk, CmpOk, TupleCmp, BoundFits, TreeKey;
    TableSizes(td);
    var row := pk + rows[pk];
    KeyMeetsBound(td, tree, row, key1, cmp1);
    KeyMeetsBound(td, tree, row, key2, cmp2);
    RowHasKey(Contents(root), td, rows, tree, pk);
    EntriesAreMap(root, view);
    var key := TreeKey(td, tree, row);
    var i :| 1 <= i < |FlatT(root.t)| && FlatT(root.t)[i].key == key;
    var e := FlatT(root.t)[i];
    assert e in hits <==> InRange(e, cmp1, BoundKey(td, tree, key1, cmp1), cmp2, BoundKey(td, tree, key2, cmp2));
    if InBounds(td, row, cmp1, key1, cmp2, key2) {
      assert e in hits && IsTreeKey(td, tree, rows, pk, e.key);
    }
  }

  /** Visited keys in byte order are rows in the order of the scanned columns. */
  lemma VisitedInOrder(td: TableDef, tree: int, a: Row, b: Row)
    requires TableOk(td) && -1 <= tree < |td.indexes| && RowOk(td, a) && RowOk(td, b)
    ensures |a| == |b| == |td.cols| && td.pkeys <= |td.cols| && (forall c :: c in TreeCols(td, tree) ==> c in td.cols)
    ensures Lt(TreeKey(td, tree, a), TreeKey(td, tree, b)) <==>
            TupleLt(Project(td, TreeCols(td, tree), a), Project(td, TreeCols(td, tree), b))
  {
    hide Encode, TupleLt, Lt, TreeKey, Types, Storable;
    TreeKeyIs(td, tree, a);
    TreeKeyIs(td, tree, b);
    var s, t := Project(td, TreeCols(td, tree), a), Project(td, TreeCols(td, tree), b);
    EncodeIsOrderIsomorphism(s, t);
    LtAfter(PrefixCode(TreePrefix(td, tree)), Encode(s), Encode(t));
  }

  // ------------------------------------------------------------ reading rows

  /** The row that primary key pk is bound to, as db_get and a scan hand it out. */
  ghost function RowRecord(td: TableDef, rows: Rows, pk: seq<Value>): Record
    requires pk in rows
  {
    Record(td.cols, pk + rows[pk])
  }

  /** A row read off its own key and value. */
  method DerefRow(td: TableDef, key: Key, val: Key, ghost rows: Rows, ghost pk: seq<Value>) returns (rec: Record)
    requires TableOk(td) && RowsOk(td, rows) && pk in rows
    requires IsTreeKey(td, -1, rows, pk, key) && Storable(rows[pk]) && val == Encode(rows[pk])
    ensures rec == RowRecord(td, rows, pk)
  {
    hide Encode, Shows, TableOk, RowsOk, RowOk;
    OldRow(td, rows, pk);
    PkRowKey(td, rows, pk, key);
    var r := DecodeRow(td, key, val);
    rec := r.value;
  }

  lemma PkRowKey(td: TableDef, rows: Rows, pk: seq<Value>, key: Key)
    requires TableOk(td) && RowsOk(td, rows) && pk in rows && IsTreeKey(td, -1, rows, pk, key)
    ensures Storable(pk) && key == EncodeKey(td.prefix, pk)
  {
    RowStorable(td, pk + rows[pk]);
    assert (pk + rows[pk])[..td.pkeys] == pk;
  }

  /** GetThrows is the exception for a value of type ERROR. */
  datatype GetResult = NoSuchRow | BadRecord | GetThrows | Row(rec: Record)

  /** db_get: the row with this primary key, read as the range scan from it to itself. */
  method DbGet(views: nat -> Pages, ptr: nat, td: TableDef, rec: Record, ghost root: Root, ghost rows: Rows) returns (r: GetResult)
    requires InPlace(root, views) && ptr == RootPage(root)
    requires Agrees(Contents(root), td, rows) && AllPrefixed(Contents(root)) && |rec.cols| == |rec.vals|
    ensures td.pkeys <= |td.cols| == |td.types| && (r.BadRecord? <==> !Supplies(td, rec, td.pkeys))
    ensures !r.BadRecord? ==>
              var pk := Ordered(td, rec, td.pkeys);
              r == if !Storable(pk) then GetThrows else if pk in rows then Row(RowRecord(td, rows, pk)) else NoSuchRow
  {
    hide Iterable, Contents, Agrees, IsRange, TableOk, RowsOk, BoundKey, IsTreeKey, Chosen, BoundFits, Rest, FlatT, Supplies, Encode, Starts, Accepts, BIter.Valid, BIter.Index;
    AgreesRows(Contents(root), td, rows);
    TableSizes(td);
    var values := CheckRecord(td, rec, td.pkeys);
    if values.None? {
      return BadRecord;
    }
    ghost var pk := values.value;
    var key := Record(Pk(td), values.value);
    OrderedByName(td, rec, td.pkeys);
    PkBound(td, key);
    var sc := new Scanner(GE, LE, key, key);
    var start := sc.DbScan(views, ptr, td, root);
    ghost var w :| Chosen(td, key.cols, w) && (!start.Rejected? <==> Accepts(td, w, GE, LE, key, key))
                   && (start.Ready? <==> Starts(td, w, GE, LE, key, key)) && (start.Ready? ==> sc.tree == w);
    ChosenIsUnique(td, key.cols, w, -1);
    if start.Throws? {
      return GetThrows;
    }
    assert Iterable(root, views(0));
    r := OnlyHit(sc, td, key, root, rows, pk, views(0));
  }

  /** The row of the only entry that a scan from a primary key to itself can have. */
  method OnlyHit(sc: Scanner, td: TableDef, key: Record, ghost root: Root, ghost rows: Rows, ghost pk: seq<Value>, ghost view: Pages)
    returns (r: GetResult)
    requires Iterable(root, view) && Agrees(Contents(root), td, rows) && AllPrefixed(Contents(root)) && TableOk(td) && RowsOk(td, rows)
    requires key == Record(Pk(td), pk) && Types(pk) == td.types[..td.pkeys] && Starts(td, -1, GE, LE, key, key)
    requires sc.Positioned()
    requires root.Rooted? ==> IsRange(sc.Remaining(), FlatT(root.t), GE, BoundKey(td, -1, key, GE), LE, BoundKey(td, -1, key, LE))
    requires root.Empty? ==> sc.Remaining() == []
    ensures r == if pk in rows then Row(RowRecord(td, rows, pk)) else NoSuchRow
  {
    hide Iterable, Contents, Agrees, IsRange, TableOk, RowsOk, BoundKey, IsTreeKey, BoundFits, Encodable, Rest, FlatT, Encode, BIter.Valid,
      BIter.Index, AllPrefixed, InBounds, Scanner.Remaining, Scanner.Positioned;
    TableSizes(td);
    assert |Types(pk)| == |pk|;
    var there := sc.IsValid();
    ghost var hits := sc.Remaining();
    if root.Rooted? {
      ScanVisitsRows(root, view, td, rows, -1, hits, GE, key, LE, key);
      OnlyThisRow(td, rows, key, pk);
    } else {
      NoRows(root, td, rows);
    }
    if !there {
      return NoSuchRow;
    }
    var k, v := sc.Current();
    assert hits[0] in hits;
    ghost var q :| q in rows && IsTreeKey(td, -1, rows, q, k);
    HitValue(root, view, td, rows, -1, hits, GE, BoundKey(td, -1, key, GE), LE, BoundKey(td, -1, key, LE), q);
    var found := DerefRow(td, k, v, rows, q);
    r := Row(found);
  }

  /** A full primary key is accepted as a bound on the primary key, and encoded exactly if its values can be. */
  lemma PkBound(td: TableDef, key: Record)
    requires TableOk(td) && key.cols == Pk(td) && |key.vals| == |key.cols| && Types(key.vals) == td.types[..td.pkeys]
    requires SameByName(td.cols, key.vals)
    ensures Chosen(td, key.cols, -1) && Accepts(td, -1, GE, LE, key, key)
    ensures Starts(td, -1, GE, LE, key, key) <==> Storable(key.vals)
    ensures forall c :: c in key.cols ==> c in td.cols
  {
    forall i | 0 <= i < |key.cols|
      ensures key.cols[i] in td.cols && key.vals[i].Type() == td.types[ColIndex(td.cols, key.cols[i])]
    {
      var k := ColIndex(td.cols, td.cols[i]);
      assert Types(key.vals)[i] == td.types[i] && Types(key.vals)[k] == td.types[k];
    }
    TreeKnown(td, -1);
    assert ColTypes(td, Pk(td))[td.pkeys..] == [];
  }

  /** Only the row with that primary key lies between it and itself. */
  lemma OnlyThisRow(td: TableDef, rows: Rows, key: Record, pk: seq<Value>)
    requires TableOk(td) && RowsOk(td, rows) && key == Record(Pk(td), pk) && Types(pk) == td.types[..td.pkeys]
    ensures |key.cols| == |key.vals| && forall c :: c in key.cols ==> c in td.cols
    ensures forall q :: q in rows ==> |q + rows[q]| == |td.cols|
    ensures forall q :: q in rows ==> (InBounds(td, q + rows[q], GE, key, LE, key) <==> q == pk)
  {
    hide TableOk, InBounds, SameByName, Types;
    TypesLength(pk);
    KnownPk(td);
    forall q | q in rows
      ensures |q + rows[q]| == |td.cols| && (InBounds(td, q + rows[q], GE, key, LE, key) <==> q == pk)
    {
      var row := q + rows[q];
      assert row[..td.pkeys] == q;
      OnlyOneself(td, row, pk);
    }
  }

  lemma TypesLength(vs: seq<Value>)
    ensures |Types(vs)| == |vs|
  {
  }

  lemma KnownPk(td: TableDef)
    requires TableOk(td)
    ensures td.pkeys <= |td.cols| == |td.types| && |Pk(td)| == td.pkeys && forall c :: c in Pk(td) ==> c in td.cols
  {
  }

  lemma OnlyOneself(td: TableDef, row: Row, pk: seq<Value>)
    requires TableOk(td) && RowOk(td, row) && |pk| == td.pkeys && Types(pk) == td.types[..td.pkeys]
    ensures |Pk(td)| == |pk| && forall c :: c in Pk(td) ==> c in td.cols
    ensures InBounds(td, row, GE, Record(Pk(td), pk), LE, Record(Pk(td), pk)) <==> row[..td.pkeys] == pk
  {
    hide Storable, TupleLt;
    RowStorable(td, row);
    ProjectPk(td, row);
    TuplesTotal(row[..td.pkeys], pk);
    NotBelowItself(pk);
  }

  lemma NotBelowItself(pk: seq<Value>)
    ensures !TupleLt(pk, pk)
  {
    if TupleLt(pk, pk) {
      TupleIrreflexive(pk, pk);
      assert false;
    }
  }

  lemma NoRows(root: Root, td: TableDef, rows: Rows)
    requires root.Empty? && Agrees(Contents(root), td, rows)
    ensures forall pk :: pk !in rows
  {
    forall pk
      ensures pk !in rows
    {
      assert pk in rows ==> RowKey(td, pk) in Contents(root);
    }
  }

  /** What a visited entry of a row holds: for the primary key the other columns, for an index nothing. */
  lemma HitValue(root: Root, view: Pages, td: TableDef, rows: Rows, tree: int, hits: seq<Entry>,
                 cmp1: Cmp, k1: Key, cmp2: Cmp, k2: Key, pk: seq<Value>)
    requires Iterable(root, view) && root.Rooted? && Agrees(Contents(root), td, rows) && TableOk(td) && RowsOk(td, rows)
    requires -1 <= tree < |td.indexes| && IsRange(hits, FlatT(root.t), cmp1, k1, cmp2, k2) && hits != []
    requires pk in rows && IsTreeKey(td, tree, rows, pk, hits[0].key)
    ensures tree < 0 ==> Storable(rows[pk]) && hits[0].val == Encode(rows[pk])
    ensures tree >= 0 ==> hits[0].val == []
  {
    hide FlatT, Contents, Iterable, Agrees, Encode, TableOk, RowsOk, TreeKey;
    EntriesAreMap(root, view);
    TableSizes(td);
    RowHasKey(Contents(root), td, rows, tree, pk);
    assert hits[0] in hits;
    var i :| 1 <= i < |FlatT(root.t)| && FlatT(root.t)[i] == hits[0];
  }

  /**
   * The row of the current entry. An index entry leads to it by its primary key, looked up in pages of its own, and the source's assertion that the
   * row is there never fails.
   */
  method Deref(sc: Scanner, views: nat -> Pages, ptr: nat, td: TableDef, ghost root: Root, ghost rows: Rows, ghost pk: seq<Value>)
    returns (rec: Record)
    requires InPlace(root, views) && root.Rooted? && ptr == RootPage(root)
    requires Agrees(Contents(root), td, rows) && AllPrefixed(Contents(root)) && TableOk(td) && RowsOk(td, rows)
    requires -1 <= sc.tree < |td.indexes|
    requires sc.Positioned() && sc.Remaining() != []
    requires pk in rows && IsTreeKey(td, sc.tree, rows, pk, sc.Remaining()[0].key)
    requires exists i :: 1 <= i < |FlatT(root.t)| && FlatT(root.t)[i] == sc.Remaining()[0]
    ensures rec == RowRecord(td, rows, pk)
  {
    hide Iterable, Contents, Agrees, TableOk, RowsOk, IsTreeKey, Rest, FlatT, Supplies, Encode, Project, Types, ColTypes;
    TableSizes(td);
    var key, val := sc.Current();
    assert Iterable(root, views(0));
    EntryValue(root, views(0), td, rows, sc.tree, sc.Remaining()[0], pk);
    if sc.tree < 0 {
      rec := DerefRow(td, key, val, rows, pk);
      return;
    }
    var want := IndexedPk(td, sc.tree, key, rows, pk);
    OldRow(td, rows, pk);
    var found := DbGet(views, ptr, td, want, root, rows);
    assert found == Row(RowRecord(td, rows, pk));
    rec := found.rec;
  }

  /** The primary key an index key leads to. */
  method IndexedPk(td: TableDef, tree: nat, key: Key, ghost rows: Rows, ghost pk: seq<Value>) returns (want: Record)
    requires TableOk(td) && RowsOk(td, rows) && tree < |td.indexes| && pk in rows && IsTreeKey(td, tree, rows, pk, key)
    ensures |want.cols| == |want.vals| && td.pkeys <= |td.cols| == |td.types| && Supplies(td, want, td.pkeys)
    ensures Ordered(td, want, td.pkeys) == pk
  {
    hide TableOk, RowsOk, IsTreeKey, Supplies, Ordered, Project, Types, ColTypes, DecodeAll;
    var index := td.indexes[tree];
    TableSizes(td);
    TreeKnown(td, tree);
    var types: seq<Type> := [];
    for i := 0 to |index|
      invariant |types| == i && forall j :: 0 <= j < i ==> types[j] == td.types[ColIndex(td.cols, index[j])]
    {
      types := types + [td.types[ColIndex(td.cols, index[i])]];
    }
    IndexTypes(td, tree, types);
    IndexEntryTuple(td, tree, rows, pk, key);
    var vs := DecodeKey(key, types);
    var tuple := Record(index, vs.value);
    want := PkOfTuple(td, tree, tuple, rows, pk);
  }

  lemma EntryValue(root: Root, view: Pages, td: TableDef, rows: Rows, tree: int, e: Entry, pk: seq<Value>)
    requires Iterable(root, view) && root.Rooted? && Agrees(Contents(root), td, rows) && TableOk(td) && RowsOk(td, rows)
    requires -1 <= tree < |td.indexes| && exists i :: 1 <= i < |FlatT(root.t)| && FlatT(root.t)[i] == e
    requires pk in rows && IsTreeKey(td, tree, rows, pk, e.key)
    ensures tree < 0 ==> Storable(rows[pk]) && e.val == Encode(rows[pk])
    ensures tree >= 0 ==> e.val == []
  {
    hide FlatT, Contents, Iterable, Agrees, Encode, TableOk, RowsOk, TreeKey;
    EntriesAreMap(root, view);
    TableSizes(td);
    RowHasKey(Contents(root), td, rows, tree, pk);
    var i :| 1 <= i < |FlatT(root.t)| && FlatT(root.t)[i] == e;
  }

  lemma IndexTypes(td: TableDef, tree: nat, types: seq<Type>)
    requires |td.cols| == |td.types| && tree < |td.indexes| && |types| == |td.indexes[tree]|
    requires forall c :: c in td.indexes[tree] ==> c in td.cols
    requires forall j :: 0 <= j < |types| ==> types[j] == td.types[ColIndex(td.cols, td.indexes[tree][j])]
    ensures types == ColTypes(td, td.indexes[tree])
  {
  }

  lemma IndexEntryTuple(td: TableDef, tree: nat, rows: Rows, pk: seq<Value>, key: Key)
    requires TableOk(td) && RowsOk(td, rows) && tree < |td.indexes| && pk in rows && IsTreeKey(td, tree, rows, pk, key)
    ensures |pk + rows[pk]| == |td.cols| && forall c :: c in td.indexes[tree] ==> c in td.cols
    ensures |key| >= PREFIX_SIZE
    ensures DecodeAll(ColTypes(td, td.indexes[tree]), key[PREFIX_SIZE..]) == Some(Project(td, td.indexes[tree], pk + rows[pk]))
  {
    hide Encode, Project, ColTypes, EncodeKey, DecodeAll;
    TreeKeyIs(td, tree, pk + rows[pk]);
    DecodeKeyOfEncodeKey(td.indexPrefixes[tree], Project(td, td.indexes[tree], pk + rows[pk]));
  }

  /** The primary key columns picked out of an index tuple. */
  method PkOfTuple(td: TableDef, tree: nat, tuple: Record, ghost rows: Rows, ghost pk: seq<Value>) returns (want: Record)
    requires TableOk(td) && RowsOk(td, rows) && tree < |td.indexes| && pk in rows
    requires |pk + rows[pk]| == |td.cols| && forall c :: c in td.indexes[tree] ==> c in td.cols
    requires tuple == Record(td.indexes[tree], Project(td, td.indexes[tree], pk + rows[pk]))
    ensures |want.cols| == |want.vals| && td.pkeys <= |td.cols| == |td.types| && Supplies(td, want, td.pkeys)
    ensures Ordered(td, want, td.pkeys) == pk
  {
    hide Project, Supplies, Ordered, RowsOk, TableOk, Field;
    TableSizes(td);
    PkSupplied(td, rows, pk);
    want := Record([], []);
    for i := 0 to td.pkeys
      invariant |want.cols| == |want.vals| == i && want.cols == td.cols[..i]
      invariant forall j :: 0 <= j < i ==> want.vals[j] == pk[j]
    {
      var c := td.cols[i];
      PickedValue(td, tree, rows, pk, i);
      var v := Field(tuple, c);
      want := Record(want.cols + [c], want.vals + [v.value]);
      assert td.cols[..i + 1] == td.cols[..i] + [c];
    }
    assert want.vals == pk;
  }

  lemma PickedValue(td: TableDef, tree: nat, rows: Rows, pk: seq<Value>, i: nat)
    requires TableOk(td) && RowsOk(td, rows) && tree < |td.indexes| && pk in rows && i < td.pkeys
    requires |pk + rows[pk]| == |td.cols| && forall c :: c in td.indexes[tree] ==> c in td.cols
    ensures Field(Record(td.indexes[tree], Project(td, td.indexes[tree], pk + rows[pk])), td.cols[i]) == Some(pk[i])
  {
    var index := td.indexes[tree];
    assert IndexOk(td, index) && Pk(td)[i] in index;
    var j := ColIndex(index, td.cols[i]);
    var k := ColIndex(td.cols, td.cols[i]);
    assert td.cols[k] == td.cols[i] && index[j] == td.cols[i];
    assert (pk + rows[pk])[i] == pk[i];
  }

  lemma PkSupplied(td: TableDef, rows: Rows, pk: seq<Value>)
    requires TableOk(td) && RowsOk(td, rows) && pk in rows
    ensures |pk| == td.pkeys && td.pkeys <= |td.cols| == |td.types|
    ensures Supplies(td, Record(td.cols[..td.pkeys], pk), td.pkeys)
    ensures Ordered(td, Record(td.cols[..td.pkeys], pk), td.pkeys) == pk
  {
    var rec := Record(td.cols[..td.pkeys], pk);
    RowStorable(td, pk + rows[pk]);
    forall i | 0 <= i < td.pkeys
      ensures Field(rec, td.cols[i]) == Some(pk[i]) && pk[i].Type() == td.types[i]
    {
      var k := ColIndex(rec.cols, td.cols[i]);
      assert rec.cols[i] == td.cols[i];
      assert rec.cols[k] == td.cols[k];
      assert Types(pk + rows[pk])[i] == td.types[i] && (pk + rows[pk])[i] == pk[i];
    }
  }
}

/** Creating tables with key prefixes of their own, and what that buys every table (src/catalog/catalog.cpp). */
module Catalogs {
  import opened Bytes
  import opened KvTx
  import opened KvStore
  import opened OrderPreserving
  import opened RowCodec
  import opened Tables
  import opened TableAccess
  import opened TableTexts
  import opened BTrees
  import opened BTreeReads
  import opened Nodes
  import opened Samples

  const META_PREFIX: nat := 1
  const TABLE_PREFIX: nat := 2
  const TABLE_PREFIX_MIN: nat := 3

  /** "next_prefix" */
  const NEXT_PREFIX: Key := [110, 101, 120, 116, 95, 112, 114, 101, 102, 105, 120]

  function InternalKey(prefix: nat, pk: Key): Key
  {
    PrefixCode(prefix) + pk
  }

  /** Where the counter of prefixes is stored. */
  function MetaKey(): Key { InternalKey(META_PREFIX, NEXT_PREFIX) }

  /** Where the definition of the table of this name is stored. */
  function DefKey(name: Name): Key { InternalKey(TABLE_PREFIX, name) }

  /** The next unallocated prefix as stored. */
  function NextPrefix(m: map<Key, Key>): nat
  {
    if MetaKey() in m && |m[MetaKey()]| == 4 then FromBigEndian(m[MetaKey()]) else TABLE_PREFIX_MIN
  }

  /** Allocate n consecutive prefixes, starting over at 0 after 2^32. */
  method AllocPrefix(kv: KV, tx: KVTX, n: nat) returns (first: nat)
    requires kv.Valid() && kv.Running(tx) && n < PREFIX_LIMIT
    modifies kv`s, tx`root, tx.free`state, tx.free`g, tx.pages
    ensures kv.Valid() && kv.Running(tx)
    ensures first == NextPrefix(old(kv.TxMap())) && NextPrefix(kv.TxMap()) == (first + n) % PREFIX_LIMIT
    ensures SameBut(old(kv.TxMap()), kv.TxMap(), MetaKey())
    ensures MetaKey() in kv.TxMap()
  {
    hide KV.Valid, KV.Running, KV.TxMap, FromBigEndian, BigEndian;
    first := TABLE_PREFIX_MIN;
    var key := MetaKey();
    var stored := kv.TxGet(tx, key);
    if stored.Found? && |stored.val| == 4 {
      first := FromBigEndian(stored.val);
    }
    var following := BigEndian((first + n) % PREFIX_LIMIT, 4);
    SetIsOneKey(kv.TxMap(), key, following);
    Power4();
    FromBigEndianOf((first + n) % PREFIX_LIMIT, 4);
    var ok := kv.Set(tx, key, following);
    assert ok;
  }

  lemma Power4()
    ensures Power(4) == PREFIX_LIMIT
  {
    assert Power(0) == 1 && Power(1) == 256 && Power(2) == 0x1_0000 && Power(3) == 0x100_0000;
  }

  /** What table_def_check accepts. */
  predicate Declarable(td: TableDef)
  {
    && td.name != [] && |td.cols| == |td.types| && 0 < td.pkeys <= |td.cols|
    && forall i :: 0 <= i < |td.indexes| ==> Indexable(td, td.indexes[i])
  }

  function Normalized(td: TableDef): TableDef
    requires td.pkeys <= |td.cols|
  {
    td.(indexes := seq(|td.indexes|, i requires 0 <= i < |td.indexes| => Completed(td.indexes[i], Pk(td))))
  }

  /** Check a definition and complete its indexes. */
  method TableDefCheck(td: TableDef) returns (r: Option<TableDef>)
    ensures r.Some? <==> Declarable(td)
    ensures r.None? <==>
              || td.name == [] || |td.cols| != |td.types| || td.pkeys == 0 || td.pkeys > |td.cols|
              || exists i :: 0 <= i < |td.indexes| && IndexRefused(td, td.indexes[i])
    ensures r.Some? ==> r.value == Normalized(td)
    ensures r.Some? ==> r.value == td.(indexes := r.value.indexes) && |r.value.indexes| == |td.indexes|
    ensures r.Some? ==> forall i :: 0 <= i < |td.indexes| ==> td.indexes[i] <= r.value.indexes[i] && |r.value.indexes[i]| < |td.cols|
  {
    hide Indexable, IndexRefused, IndexOk, Completed;
    if td.pkeys <= |td.cols| {
      RefusedIndexes(td);
    }
    if td.name == [] || |td.cols| != |td.types| || td.pkeys == 0 || td.pkeys > |td.cols| {
      return None;
    }
    var indexes: seq<seq<Name>> := [];
    for i := 0 to |td.indexes|
      invariant |indexes| == i
      invariant forall j :: 0 <= j < i ==> Indexable(td, td.indexes[j]) && indexes[j] == Completed(td.indexes[j], Pk(td))
      invariant forall j :: 0 <= j < i ==> td.indexes[j] <= indexes[j] && |indexes[j]| < |td.cols|
    {
      var index := CheckIndexKeys(td, td.indexes[i]);
      if index.None? {
        return None;
      }
      indexes := indexes + [index.value];
    }
    assert indexes == Normalized(td).indexes;
    r := Some(td.(indexes := indexes));
  }

  lemma RefusedIndexes(td: TableDef)
    requires td.pkeys <= |td.cols|
    ensures forall i :: 0 <= i < |td.indexes| ==> (IndexRefused(td, td.indexes[i]) <==> !Indexable(td, td.indexes[i]))
  {
    forall i | 0 <= i < |td.indexes|
      ensures IndexRefused(td, td.indexes[i]) <==> !Indexable(td, td.indexes[i])
    {
      RefusedIf(td, td.indexes[i]);
    }
  }

  /** The definition with its prefixes, of 32 bits each: one for the rows, then one for each index. */
  function WithPrefixes(td: TableDef, first: nat): TableDef
  {
    td.(prefix := first, indexPrefixes := seq(|td.indexes|, i requires 0 <= i < |td.indexes| => (first + 1 + i) % PREFIX_LIMIT))
  }

  /**
   * Prefixes in the order they are given out: from 3 up to 2^32 - 1, and then 0, which nothing uses. The next one is 1,
   * the catalog's own.
   */
  function Rank(p: nat): nat
  {
    if p == 0 then PREFIX_LIMIT else p
  }

  /** The rank of the next prefix. Below 3 the counter has started over. */
  function Given(m: map<Key, Key>): nat
  {
    if NextPrefix(m) < TABLE_PREFIX_MIN then PREFIX_LIMIT + NextPrefix(m) else NextPrefix(m)
  }

  /** As long as they do not reach the catalog's own, a table's prefixes are ranked one after the other. */
  lemma PrefixesFollow(td: TableDef, given: nat)
    requires TABLE_PREFIX_MIN <= given && given + |td.indexes| <= PREFIX_LIMIT
    ensures var out := WithPrefixes(td, given % PREFIX_LIMIT);
            && Rank(out.prefix) == given && out.prefix < PREFIX_LIMIT
            && |out.indexPrefixes| == |out.indexes| && out.indexes == td.indexes
            && out.cols == td.cols && out.types == td.types && out.pkeys == td.pkeys
            && forall i :: 0 <= i < |out.indexPrefixes| ==> Rank(out.indexPrefixes[i]) == given + 1 + i && out.indexPrefixes[i] < PREFIX_LIMIT
  {
  }

  lemma NewTableOk(td: TableDef, given: nat)
    requires Declarable(td) && TABLE_PREFIX_MIN <= given && given + |td.indexes| <= PREFIX_LIMIT
    ensures TableOk(WithPrefixes(Normalized(td), given % PREFIX_LIMIT))
  {
    hide WithPrefixes, IndexOk, Indexable, Completed;
    PrefixesFollow(Normalized(td), given);
    var out := WithPrefixes(Normalized(td), given % PREFIX_LIMIT);
    forall i | 0 <= i < |out.indexes|
      ensures IndexOk(out, out.indexes[i])
    {
      NormalizedIndexOk(td, td.indexes[i]);
      SameIndexOk(td, out, out.indexes[i]);
    }
  }

  lemma SameIndexOk(td: TableDef, out: TableDef, index: seq<Name>)
    requires td.pkeys == out.pkeys <= |td.cols| && td.cols == out.cols && IndexOk(td, index)
    ensures IndexOk(out, index)
  {
  }

  // ------------------------------------------------------------ all tables together

  /** Every prefix of the table is ranked below next, and none is reserved. */
  ghost predicate Below(td: TableDef, next: nat)
  {
    && TABLE_PREFIX_MIN <= Rank(td.prefix) < next
    && (forall i :: 0 <= i < |td.indexPrefixes| ==> TABLE_PREFIX_MIN <= Rank(td.indexPrefixes[i]) < next)
  }

  ghost predicate Owns(td: TableDef, prefix: nat)
  {
    prefix == td.prefix || exists i :: 0 <= i < |td.indexPrefixes| && td.indexPrefixes[i] == prefix
  }

  ghost predicate Apart(a: TableDef, b: TableDef)
  {
    forall p: nat :: !(Owns(a, p) && Owns(b, p))
  }

  /** The tables' definitions are stored, each under its own name. */
  ghost predicate Declared(m: map<Key, Key>, tables: seq<TableDef>)
  {
    && (forall i :: 0 <= i < |tables| ==> IsDeclared(m, tables[i]))
    && (forall i, j :: 0 <= i < j < |tables| ==> tables[i].name != tables[j].name)
  }

  ghost predicate IsDeclared(m: map<Key, Key>, td: TableDef)
  {
    FitsFields(td) && DefKey(td.name) in m && m[DefKey(td.name)] == EncodeDef(td)
  }

  /** Each key is the counter's, a definition's, or under a prefix that one of the tables owns. */
  ghost predicate Accounted(m: map<Key, Key>, tables: seq<TableDef>)
  {
    forall key, p: nat :: key in m && HasPrefix(key, p) && p < PREFIX_LIMIT ==> HasOwner(tables, key, p)
  }

  ghost predicate HasOwner(tables: seq<TableDef>, key: Key, p: nat)
  {
    if p == META_PREFIX then key == MetaKey()
    else if p == TABLE_PREFIX then exists i :: 0 <= i < |tables| && DefKey(tables[i].name) == key
    else exists i :: 0 <= i < |tables| && Owns(tables[i], p)
  }

  /**
   * Every key has a prefix and is accounted for by the tables, these are the ones whose definitions are stored, each
   * agrees with its rows, and no two share a prefix.
   */
  ghost predicate CatalogOk(m: map<Key, Key>, tables: seq<TableDef>, rows: seq<Rows>)
  {
    && AllPrefixed(m) && |tables| == |rows| && TABLE_PREFIX_MIN <= Given(m) <= PREFIX_LIMIT + 1
    && (forall i :: 0 <= i < |tables| ==> Agrees(m, tables[i], rows[i]) && Below(tables[i], Given(m)))
    && (forall i, j :: 0 <= i < j < |tables| ==> Apart(tables[i], tables[j]))
    && Declared(m, tables) && Accounted(m, tables)
  }

  /** Nothing lies under a prefix not given out yet. */
  lemma KeysBelow(m: map<Key, Key>, tables: seq<TableDef>, rows: seq<Rows>)
    requires CatalogOk(m, tables, rows)
    ensures forall key, p: nat :: key in m && HasPrefix(key, p) && p < PREFIX_LIMIT ==> Rank(p) < Given(m)
  {
    hide HasPrefix, Agrees, Given, Declared;
    forall key, p: nat | key in m && HasPrefix(key, p) && p < PREFIX_LIMIT
      ensures Rank(p) < Given(m)
    {
      assert HasOwner(tables, key, p);
    }
  }

  /** Every table's definition can be read back from its text. */
  ghost predicate Readable(tables: seq<TableDef>)
  {
    forall i :: 0 <= i < |tables| ==> PlainNames(tables[i])
  }

  /** td is one of the tables, and these are its rows. */
  ghost predicate IsTable(td: TableDef, its: Rows, tables: seq<TableDef>, rows: seq<Rows>)
  {
    exists j :: 0 <= j < |tables| && j < |rows| && tables[j] == td && rows[j] == its
  }

  /** The map alone decides the tables, if their definitions can be read, and their rows. */
  lemma MapDecidesCatalog(m: map<Key, Key>, tables: seq<TableDef>, rows: seq<Rows>, others: seq<TableDef>, otherRows: seq<Rows>)
    requires CatalogOk(m, tables, rows) && CatalogOk(m, others, otherRows) && Readable(tables) && Readable(others)
    ensures |rows| == |tables| && forall i :: 0 <= i < |tables| ==> IsTable(tables[i], rows[i], others, otherRows)
  {
    hide HasPrefix, Agrees, Declared, Accounted, PlainNames, Apart, Below, Given;
    forall i | 0 <= i < |tables|
      ensures IsTable(tables[i], rows[i], others, otherRows)
    {
      DeclaredIs(m, tables, i);
      var j := DeclaredIn(m, others, tables[i].name);
      DefinitionsAgree(m, tables[i], others[j]);
      assert Agrees(m, tables[i], rows[i]) && Agrees(m, others[j], otherRows[j]);
      AgreesRows(m, tables[i], rows[i], otherRows[j]);
    }
  }

  lemma DeclaredIs(m: map<Key, Key>, tables: seq<TableDef>, i: nat)
    requires Declared(m, tables) && i < |tables|
    ensures IsDeclared(m, tables[i])
  {
  }

  lemma AgreesRows(m: map<Key, Key>, td: TableDef, a: Rows, b: Rows)
    requires Agrees(m, td, a) && Agrees(m, td, b)
    ensures a == b
  {
    RowsAreUnique(m, td, a, b);
  }

  /** A stored definition is one of the tables'. */
  lemma DeclaredIn(m: map<Key, Key>, tables: seq<TableDef>, name: Name) returns (j: nat)
    requires Accounted(m, tables) && Declared(m, tables) && DefKey(name) in m
    ensures j < |tables| && tables[j].name == name && IsDeclared(m, tables[j])
  {
    hide HasPrefix, DefKey, IsDeclared;
    DefHasPrefix(name);
    assert HasOwner(tables, DefKey(name), TABLE_PREFIX);
    j :| 0 <= j < |tables| && DefKey(tables[j].name) == DefKey(name);
    DefKeysDiffer(tables[j].name, name);
  }

  lemma DefinitionsAgree(m: map<Key, Key>, a: TableDef, b: TableDef)
    requires IsDeclared(m, a) && IsDeclared(m, b) && a.name == b.name && PlainNames(a) && PlainNames(b)
    ensures a == b
  {
    hide FitsFields, PlainNames, EncodeDef, DecodeDef, DefKey;
    DefColumns(a);
    DefColumns(b);
    DecodeDefEncodeDef(a);
    DecodeDefEncodeDef(b);
  }

  lemma DefColumns(td: TableDef)
    requires FitsFields(td)
    ensures |td.cols| == |td.types|
  {
  }

  // ------------------------------------------------------------ the operations on a catalog

  /** A store's map, with the tables and rows it holds. */
  datatype Db = Db(m: map<Key, Key>, tables: seq<TableDef>, rows: seq<Rows>)

  datatype TableOp =
    | New(def: TableDef)
    | Put(t: nat, row: Row)
    | Drop(t: nat, pk: seq<Value>)

  /** The definition that table_new makes of a valid one. */
  function NewTable(def: TableDef, m: map<Key, Key>): TableDef
    requires def.pkeys <= |def.cols|
  {
    WithPrefixes(Normalized(def), NextPrefix(m))
  }

  /** Only the counter of prefixes differs: by those of a table and its k indexes. */
  ghost predicate Allocated(m: map<Key, Key>, mid: map<Key, Key>, k: nat)
  {
    && SameBut(m, mid, MetaKey()) && MetaKey() in mid
    && NextPrefix(mid) == (NextPrefix(m) + (1 + k) % PREFIX_LIMIT) % PREFIX_LIMIT
  }

  /** The two writes of table_new. */
  ghost predicate Stored(m: map<Key, Key>, mid: map<Key, Key>, n: map<Key, Key>, def: TableDef)
    requires Declarable(def)
  {
    && Allocated(m, mid, |def.indexes|)
    && n == mid[DefKey(def.name) := EncodeDef(NewTable(def, m))] && |EncodeDef(NewTable(def, m))| <= MAX_VAL
  }

  /** What a table_new with prefixes left, a db_update and a db_delete each make of a, when they succeed. */
  ghost predicate Does(op: TableOp, a: Db, b: Db)
  {
    match op
    case New(def) =>
      && Declarable(def) && DefKey(def.name) !in a.m && Given(a.m) + |def.indexes| <= PREFIX_LIMIT
      && (exists mid :: Stored(a.m, mid, b.m, def))
      && b.tables == a.tables + [NewTable(def, a.m)] && b.rows == a.rows + [map[]]
    case Put(t, row) =>
      && t < |a.tables| == |a.rows| && a.tables[t].pkeys <= |row|
      && Changes(a, b, t, a.rows[t][row[..a.tables[t].pkeys] := row[a.tables[t].pkeys..]])
    case Drop(t, pk) =>
      t < |a.tables| == |a.rows| && Changes(a, b, t, a.rows[t] - {pk})
  }

  /** Table t has these rows now, and no key of another one has changed. */
  ghost predicate Changes(a: Db, b: Db, t: nat, now: Rows)
    requires t < |a.tables| == |a.rows|
  {
    b.tables == a.tables && b.rows == a.rows[t := now] && OthersSame(a.m, b.m, a.tables[t]) && Agrees(b.m, a.tables[t], now)
  }

  /** Each of them leaves a catalog consistent. */
  lemma DoesKeepsCatalog(op: TableOp, a: Db, b: Db)
    requires CatalogOk(a.m, a.tables, a.rows) && Does(op, a, b)
    ensures CatalogOk(b.m, b.tables, b.rows)
  {
    hide CatalogOk, Stored, OthersSame, Agrees, NextPrefix, InternalKey, Declarable, WithPrefixes, Normalized;
    match op
    case New(def) =>
      var mid :| Stored(a.m, mid, b.m, def);
      CatalogAfterNew(a.m, mid, b.m, a.tables, a.rows, def);
    case Put(t, row) =>
      CatalogAfterTableChange(a.m, b.m, a.tables, a.rows, t, b.rows[t]);
    case Drop(t, pk) =>
      CatalogAfterTableChange(a.m, b.m, a.tables, a.rows, t, b.rows[t]);
  }

  /** Keys under a prefix that td does not own are not among those an operation on td may change. */
  lemma NotOwned(m: map<Key, Key>, n: map<Key, Key>, td: TableDef, p: nat)
    requires TableOk(td) && OthersSame(m, n, td) && !Owns(td, p) && p < PREFIX_LIMIT
    ensures SameUnder(m, n, p)
  {
    hide IndexOk;
    forall key | HasPrefix(key, p)
      ensures (key in m <==> key in n) && (key in m ==> m[key] == n[key])
    {
      if HasPrefix(key, td.prefix) {
        PrefixesApart(key, td.prefix, p);
        assert false;
      }
      forall i | 0 <= i < |td.indexPrefixes|
        ensures !HasPrefix(key, td.indexPrefixes[i])
      {
        if HasPrefix(key, td.indexPrefixes[i]) {
          PrefixesApart(key, td.indexPrefixes[i], p);
          assert false;
        }
      }
    }
  }

  /** An operation on one table leaves every other table's rows and indexes as they were. */
  lemma OtherTableKept(m: map<Key, Key>, n: map<Key, Key>, td: TableDef, other: TableDef, rows: Rows)
    requires TableOk(td) && OthersSame(m, n, td) && Apart(td, other) && Agrees(m, other, rows)
    ensures Agrees(n, other, rows)
  {
    hide HasPrefix, OthersSame, SameUnder, RowsAgree, IndexAgrees, RowsOk;
    assert Owns(other, other.prefix) && !Owns(td, other.prefix);
    NotOwned(m, n, td, other.prefix);
    RowsFrame(m, n, other, rows);
    forall i: nat | i < |other.indexes|
      ensures IndexAgrees(n, other, i, rows)
    {
      assert Owns(other, other.indexPrefixes[i]) && !Owns(td, other.indexPrefixes[i]);
      NotOwned(m, n, td, other.indexPrefixes[i]);
      IndexFrame(m, n, other, i, rows);
    }
  }

  /** After a db_update or db_delete on table t the whole catalog is consistent again. */
  lemma CatalogAfterTableChange(m: map<Key, Key>, n: map<Key, Key>, tables: seq<TableDef>, rows: seq<Rows>, t: nat, now: Rows)
    requires CatalogOk(m, tables, rows) && t < |tables|
    requires OthersSame(m, n, tables[t]) && Agrees(n, tables[t], now)
    ensures CatalogOk(n, tables, rows[t := now])
  {
    hide HasPrefix, OthersSame, Agrees, NextPrefix, SameUnder, Declared, HasOwner, Owns;
    AgreesParts(m, tables[t], rows[t]);
    PrefixedKept(m, n, tables[t]);
    MetaKept(m, n, tables[t]);
    forall i | 0 <= i < |tables|
      ensures Agrees(n, tables[i], rows[t := now][i])
    {
      if i != t {
        ApartEither(tables, i, t);
        OtherTableKept(m, n, tables[t], tables[i], rows[i]);
      }
    }
    DeclaredKept(m, n, tables, tables[t]);
    forall key, p: nat | key in n && HasPrefix(key, p) && p < PREFIX_LIMIT
      ensures HasOwner(tables, key, p)
    {
      if Owns(tables[t], p) {
        OwnedByTable(tables, t, key, p);
      } else {
        NotOwned(m, n, tables[t], p);
        SameKey(m, n, p, key);
      }
    }
  }

  lemma OwnedByTable(tables: seq<TableDef>, t: nat, key: Key, p: nat)
    requires t < |tables| && Owns(tables[t], p) && exists next :: Below(tables[t], next)
    ensures HasOwner(tables, key, p)
  {
  }

  /** Definitions are under a reserved prefix, out of every table's reach. */
  lemma DeclaredKept(m: map<Key, Key>, n: map<Key, Key>, tables: seq<TableDef>, td: TableDef)
    requires Declared(m, tables) && TableOk(td) && OthersSame(m, n, td) && exists next :: Below(td, next)
    ensures Declared(n, tables)
  {
    hide HasPrefix, OthersSame, EncodeDef, DefKey;
    NotOwned(m, n, td, TABLE_PREFIX);
    forall i | 0 <= i < |tables|
      ensures IsDeclared(n, tables[i])
    {
      DefHasPrefix(tables[i].name);
      assert IsDeclared(m, tables[i]);
    }
  }

  lemma DefHasPrefix(name: Name)
    ensures HasPrefix(DefKey(name), TABLE_PREFIX)
  {
    InternalHasPrefix(TABLE_PREFIX, name);
  }

  lemma PrefixedKept(m: map<Key, Key>, n: map<Key, Key>, td: TableDef)
    requires AllPrefixed(m) && OthersSame(m, n, td)
    ensures AllPrefixed(n)
  {
    hide PrefixCode;
    assert forall key, p: nat :: |key| < PREFIX_SIZE ==> !HasPrefix(key, p);
  }

  lemma SameKey(m: map<Key, Key>, n: map<Key, Key>, p: nat, key: Key)
    requires SameUnder(m, n, p) && HasPrefix(key, p) && key in n
    ensures key in m
  {
  }

  lemma AgreesParts(m: map<Key, Key>, td: TableDef, rows: Rows)
    requires Agrees(m, td, rows)
    ensures TableOk(td)
  {
  }

  lemma ApartEither(tables: seq<TableDef>, i: nat, t: nat)
    requires i < |tables| && t < |tables| && i != t
    requires forall a, b :: 0 <= a < b < |tables| ==> Apart(tables[a], tables[b])
    ensures Apart(tables[t], tables[i])
  {
    assert if i < t then Apart(tables[i], tables[t]) else Apart(tables[t], tables[i]);
  }

  /** The catalog's own keys are under a reserved prefix, out of every table's reach. */
  lemma MetaKept(m: map<Key, Key>, n: map<Key, Key>, td: TableDef)
    requires TableOk(td) && OthersSame(m, n, td) && exists next :: Below(td, next)
    ensures NextPrefix(n) == NextPrefix(m)
  {
    hide HasPrefix, OthersSame, FromBigEndian;
    var next :| Below(td, next);
    assert !Owns(td, META_PREFIX);
    NotOwned(m, n, td, META_PREFIX);
    InternalHasPrefix(META_PREFIX, NEXT_PREFIX);
  }

  lemma InternalHasPrefix(p: nat, pk: Key)
    ensures HasPrefix(InternalKey(p, pk), p)
  {
    assert InternalKey(p, pk)[..PREFIX_SIZE] == PrefixCode(p);
  }

  lemma DeclaredSizes(td: TableDef)
    requires Declarable(td)
    ensures td.pkeys <= |td.cols| == |td.types| && |Normalized(td).indexes| == |td.indexes|
  {
  }

  lemma NewTableParts(def: TableDef, m: map<Key, Key>)
    requires Declarable(def)
    ensures var td := NewTable(def, m);
            && td.name == def.name && td.cols == def.cols && td.types == def.types && |td.cols| == |td.types|
            && td.indexes == Normalized(def).indexes && |td.indexes| == |td.indexPrefixes| == |def.indexes|
            && td.pkeys <= |td.cols| && td.prefix < PREFIX_LIMIT
            && forall i :: 0 <= i < |td.indexPrefixes| ==> td.indexPrefixes[i] < PREFIX_LIMIT
  {
    hide NextPrefix;
    NextPrefixBound(m);
  }

  lemma StoredParts(m: map<Key, Key>, mid: map<Key, Key>, n: map<Key, Key>, def: TableDef)
    requires Declarable(def) && Stored(m, mid, n, def)
    ensures SameBut(m, mid, MetaKey()) && MetaKey() in n && |NewTable(def, m).cols| == |NewTable(def, m).types|
    ensures NextPrefix(mid) == (NextPrefix(m) + (1 + |def.indexes|) % PREFIX_LIMIT) % PREFIX_LIMIT
    ensures n == mid[DefKey(def.name) := EncodeDef(NewTable(def, m))] && FitsFields(NewTable(def, m))
  {
    hide SameBut, EncodeDef, NextPrefix, DefKey, MetaKey, NewTable;
    NewTableParts(def, m);
    ShortFits(NewTable(def, m));
  }

  datatype Created = Created(td: TableDef) | Invalid | Exists | TooLarge

  /**
   * Create a table: its prefixes, then its definition under @table. As long as there are prefixes for it, all tables
   * are consistent afterwards, the new one without rows; nothing checks that, and else no rows at all agree with the new
   * table.
   */
  method TableNew(kv: KV, tx: KVTX, def: TableDef, ghost tables: seq<TableDef>, ghost rows: seq<Rows>)
    returns (r: Created)
    requires kv.Valid() && kv.Running(tx) && CatalogOk(kv.TxMap(), tables, rows)
    modifies kv`s, tx`root, tx.free`state, tx.free`g, tx.pages
    ensures kv.Valid() && kv.Running(tx)
    ensures r.Invalid? <==> !(Declarable(def) && def.prefix == 0 && def.indexPrefixes == [])
    ensures r.Invalid? <==>
              || def.name == [] || |def.cols| != |def.types| || def.pkeys == 0 || def.pkeys > |def.cols|
              || (exists i :: 0 <= i < |def.indexes| && IndexRefused(def, def.indexes[i]))
              || def.prefix != 0 || def.indexPrefixes != []
    ensures r.Created? ==> |r.td.indexes| == |def.indexes| && forall i :: 0 <= i < |def.indexes| ==> |r.td.indexes[i]| < |r.td.cols|
    ensures r.Invalid? || r.Exists? ==> kv.TxMap() == old(kv.TxMap())
    ensures !r.Invalid? ==> (r.Exists? <==> KeyInLimit(DefKey(def.name)) && DefKey(def.name) in old(kv.TxMap()))
    ensures !r.Invalid? && !r.Exists? ==>
              (r.TooLarge? <==> !KeyInLimit(DefKey(def.name)) || |EncodeDef(NewTable(def, old(kv.TxMap())))| > MAX_VAL)
    ensures r.Created? ==> Declarable(def) && r.td == NewTable(def, old(kv.TxMap()))
    ensures r.Created? && Given(old(kv.TxMap())) + |def.indexes| <= PREFIX_LIMIT ==>
              && CatalogOk(kv.TxMap(), tables + [r.td], rows + [map[]])
              && Does(New(def), Db(old(kv.TxMap()), tables, rows), Db(kv.TxMap(), tables + [r.td], rows + [map[]]))
    ensures r.Created? && Given(old(kv.TxMap())) + |def.indexes| > PREFIX_LIMIT ==> forall rs: Rows :: !Agrees(kv.TxMap(), r.td, rs)
  {
    hide KV.Valid, KV.Running, KV.TxMap, CatalogOk, NextPrefix, Given, SameBut, HasPrefix, Declarable, Normalized, MetaKey, DefKey, Agrees, EncodeDef;
    var td := TableDefCheck(def);
    if td.None? || def.prefix != 0 || def.indexPrefixes != [] {
      return Invalid;
    }
    var key := DefKey(def.name);
    var there := kv.TxGet(tx, key);
    if there.Refused? {
      return TooLarge;
    }
    if there.Found? {
      return Exists;
    }
    DeclaredSizes(def);
    ghost var m := kv.TxMap();
    var first := AllocPrefix(kv, tx, (1 + |td.value.indexes|) % PREFIX_LIMIT);
    ghost var mid := kv.TxMap();
    DefIsNot(m, mid, def.name);
    NewTableParts(def, m);
    var made := WithPrefixes(td.value, first);
    var encoded := EncodeTableDef(made);
    var ok := kv.Set(tx, key, encoded);
    if !ok {
      return TooLarge;
    }
    assert Stored(m, mid, kv.TxMap(), def);
    NewTableExactlyIf(m, mid, kv.TxMap(), tables, rows, def);
    r := Created(made);
  }

  lemma DefIsNot(m: map<Key, Key>, mid: map<Key, Key>, name: Name)
    requires SameBut(m, mid, MetaKey())
    ensures DefKey(name) in mid <==> DefKey(name) in m
  {
    InternalHasPrefix(META_PREFIX, NEXT_PREFIX);
    DefHasPrefix(name);
    ReservedApart(MetaKey(), DefKey(name));
  }

  /** Both halves: with enough prefixes the catalog goes on, without them the new table gets the catalog's own. */
  lemma NewTableExactlyIf(m: map<Key, Key>, mid: map<Key, Key>, n: map<Key, Key>, tables: seq<TableDef>, rows: seq<Rows>, def: TableDef)
    requires CatalogOk(m, tables, rows) && Declarable(def) && DefKey(def.name) !in m && Stored(m, mid, n, def)
    ensures Given(m) + |def.indexes| <= PREFIX_LIMIT ==> CatalogOk(n, tables + [NewTable(def, m)], rows + [map[]])
    ensures Given(m) + |def.indexes| > PREFIX_LIMIT ==> forall rs: Rows :: !Agrees(n, NewTable(def, m), rs)
  {
    hide HasPrefix, Agrees, NextPrefix, SameBut, MetaKey, DefKey, Declarable, WithPrefixes, Normalized, EncodeDef;
    DeclaredSizes(def);
    NextPrefixIsGiven(m);
    if Given(m) + |def.indexes| <= PREFIX_LIMIT {
      CatalogAfterNew(m, mid, n, tables, rows, def);
    } else {
      OwnsMeta(Normalized(def), Given(m));
      forall rs: Rows
        ensures !Agrees(n, NewTable(def, m), rs)
      {
        ForeignKey(n, NewTable(def, m), rs);
      }
    }
  }

  lemma NextPrefixIsGiven(m: map<Key, Key>)
    requires TABLE_PREFIX_MIN <= Given(m) <= PREFIX_LIMIT + 1
    ensures NextPrefix(m) == Given(m) % PREFIX_LIMIT
  {
    hide FromBigEndian, InternalKey;
    NextPrefixBound(m);
  }

  lemma NextPrefixBound(m: map<Key, Key>)
    ensures NextPrefix(m) < PREFIX_LIMIT
  {
    hide InternalKey, FromBigEndian;
    var key := MetaKey();
    if key in m && |m[key]| == 4 {
      Power4();
      BigEndianOf(m[key]);
    }
  }

  /** A table that runs past the last prefix owns the catalog's. */
  lemma OwnsMeta(td: TableDef, given: nat)
    requires TABLE_PREFIX_MIN <= given <= PREFIX_LIMIT + 1 && given + |td.indexes| > PREFIX_LIMIT
    ensures Owns(WithPrefixes(td, given % PREFIX_LIMIT), META_PREFIX)
  {
    var out := WithPrefixes(td, given % PREFIX_LIMIT);
    var j := PREFIX_LIMIT + 1 - given;
    if j > 0 {
      assert out.indexPrefixes[j - 1] == (given % PREFIX_LIMIT + j) % PREFIX_LIMIT == META_PREFIX;
    }
  }

  /** The counter's key is not the key of any tuple, so no rows account for it. */
  lemma ForeignKey(n: map<Key, Key>, td: TableDef, rows: Rows)
    requires MetaKey() in n && Owns(td, META_PREFIX)
    ensures !Agrees(n, td, rows)
  {
    hide Encode, RowOk, HasPrefix, PrefixCode;
    var meta := MetaKey();
    InternalHasPrefix(META_PREFIX, NEXT_PREFIX);
    if Agrees(n, td, rows) {
      if td.prefix == META_PREFIX {
        var pk :| pk in rows && RowKey(td, pk) == meta;
        NotACode(td.prefix, pk, meta);
      } else {
        var i :| 0 <= i < |td.indexPrefixes| && td.indexPrefixes[i] == META_PREFIX;
        assert IndexAgrees(n, td, i, rows);
        var pk :| pk in rows && IndexKey(td, i, pk + rows[pk]) == meta;
        assert IndexOk(td, td.indexes[i]);
        assert td.cols[0] in td.indexes[i] by {
          assert Pk(td)[0] in Pk(td);
        }
        NotACode(td.indexPrefixes[i], Project(td, td.indexes[i], pk + rows[pk]), meta);
      }
      assert false;
    }
  }

  lemma NotACode(p: nat, vs: seq<Value>, meta: Key)
    requires meta == MetaKey() && vs != []
    ensures Storable(vs) ==> EncodeKey(p, vs) != meta
    ensures meta != []
  {
    hide Encode, BigEndian;
    if Storable(vs) && EncodeKey(p, vs) == meta {
      assert EncodeKey(p, vs)[PREFIX_SIZE..] == Encode(vs) && meta[PREFIX_SIZE..] == NEXT_PREFIX;
      CodesOfNumbers(vs);
      assert false;
    }
  }

  /** A code without a 0 byte holds numbers only, of 8 bytes each. */
  lemma {:induction false} CodesOfNumbers(vs: seq<Value>)
    requires Storable(vs) && NoZero(Encode(vs))
    ensures |Encode(vs)| == 8 * |vs|
  {
    hide Code;
    if vs != [] {
      var head, rest := Code(vs[0]), Encode(vs[1..]);
      assert Encode(vs) == head + rest;
      ZeroFreeParts(head, rest);
      NumberCode(vs[0]);
      CodesOfNumbers(vs[1..]);
    }
  }

  lemma ZeroFreeParts(a: Key, b: Key)
    requires NoZero(a + b)
    ensures NoZero(a) && NoZero(b)
  {
    forall i | 0 <= i < |b|
      ensures b[i] != 0
    {
      assert (a + b)[|a| + i] == b[i];
    }
    forall i | 0 <= i < |a|
      ensures a[i] != 0
    {
      assert (a + b)[i] == a[i];
    }
  }

  lemma NumberCode(v: Value)
    requires !v.Err? && NoZero(Code(v))
    ensures |Code(v)| == 8
  {
    hide Code;
    CodeEnds(v);
  }

  lemma CodeEnds(v: Value)
    requires !v.Err?
    ensures v.Int? ==> |Code(v)| == 8
    ensures v.Str? ==> exists i :: 0 <= i < |Code(v)| && Code(v)[i] == 0
  {
    hide Escape, IntCode;
    if v.Str? {
      assert Code(v)[|Code(v)| - 1] == 0;
    }
  }

  /** Whatever reads that key as a row of the table, or an entry of its index, throws. */
  lemma ForeignKeyThrows(types: seq<Type>)
    requires types != []
    ensures DecodeAll(types, NEXT_PREFIX).None?
  {
    hide DecodeAll, Encode;
    if DecodeAll(types, NEXT_PREFIX).Some? {
      EncodeDecode(types, NEXT_PREFIX);
      CodesOfNumbers(DecodeAll(types, NEXT_PREFIX).value);
      assert false;
    }
  }

  /** A new table has no rows and no keys, and the others are as they were. */
  lemma CatalogAfterNew(m: map<Key, Key>, mid: map<Key, Key>, n: map<Key, Key>, tables: seq<TableDef>, rows: seq<Rows>, def: TableDef)
    requires CatalogOk(m, tables, rows) && Declarable(def) && DefKey(def.name) !in m && Stored(m, mid, n, def)
    requires Given(m) + |def.indexes| <= PREFIX_LIMIT
    ensures CatalogOk(n, tables + [NewTable(def, m)], rows + [map[]])
  {
    hide HasPrefix, Agrees, NextPrefix, SameBut, MetaKey, DefKey, Declarable, WithPrefixes, Normalized, Given, Below, Apart, EncodeDef,
      Declared, Accounted, Stored, NewTable;
    DeclaredSizes(def);
    var td := NewTable(def, m);
    StoredParts(m, mid, n, def);
    NewTableParts(def, m);
    NewTableIs(def, m);
    NextPrefixIsGiven(m);
    PrefixesFollow(Normalized(def), Given(m));
    NewTableOk(def, Given(m));
    ReservedOnly(m, mid, n, def.name, EncodeDef(td));
    PrefixedReserved(m, mid, n, def.name, EncodeDef(td));
    GivenAfter(m, n, |def.indexes|);
    KeysBelow(m, tables, rows);
    forall i | 0 <= i < |tables|
      ensures Agrees(n, tables[i], rows[i]) && Apart(tables[i], td) && Below(tables[i], Given(n))
    {
      BelowMore(tables[i], Given(m), Given(n));
      KeptByReserved(m, n, tables[i], rows[i], Given(m));
      RanksApart(tables[i], td, Given(m));
    }
    RanksBelow(td, Given(m), Given(n));
    NothingYet(m, n, td, Given(m));
    DeclaredMore(m, mid, n, tables, def);
    AccountedMore(m, mid, n, tables, td);
    CatalogExtended(n, tables, rows, td);
  }

  lemma NewTableIs(def: TableDef, m: map<Key, Key>)
    requires Declarable(def)
    ensures NewTable(def, m) == WithPrefixes(Normalized(def), NextPrefix(m))
  {
  }

  lemma DeclaredMore(m: map<Key, Key>, mid: map<Key, Key>, n: map<Key, Key>, tables: seq<TableDef>, def: TableDef)
    requires Declared(m, tables) && Declarable(def) && DefKey(def.name) !in m && Stored(m, mid, n, def)
    ensures Declared(n, tables + [NewTable(def, m)])
  {
    hide HasPrefix, MetaKey, DefKey, EncodeDef, NextPrefix, NewTable, Stored;
    var td := NewTable(def, m);
    NewTableParts(def, m);
    StoredParts(m, mid, n, def);
    assert IsDeclared(n, td);
    InternalHasPrefix(META_PREFIX, NEXT_PREFIX);
    forall i | 0 <= i < |tables|
      ensures IsDeclared(n, tables[i]) && tables[i].name != td.name
    {
      assert IsDeclared(m, tables[i]);
      DefHasPrefix(tables[i].name);
      MetaHasPrefix();
      ReservedApart(MetaKey(), DefKey(tables[i].name));
      DefKeysDiffer(tables[i].name, td.name);
    }
  }

  lemma MetaHasPrefix()
    ensures HasPrefix(MetaKey(), META_PREFIX)
  {
    InternalHasPrefix(META_PREFIX, NEXT_PREFIX);
  }

  lemma DefKeysDiffer(a: Name, b: Name)
    ensures DefKey(a) == DefKey(b) <==> a == b
  {
    hide PrefixCode;
    assert DefKey(a)[PREFIX_SIZE..] == a && DefKey(b)[PREFIX_SIZE..] == b;
  }

  lemma AccountedMore(m: map<Key, Key>, mid: map<Key, Key>, n: map<Key, Key>, tables: seq<TableDef>, td: TableDef)
    requires Accounted(m, tables) && SameBut(m, mid, MetaKey()) && |td.cols| == |td.types| && n == mid[DefKey(td.name) := EncodeDef(td)]
    ensures Accounted(n, tables + [td])
  {
    hide HasPrefix, MetaKey, DefKey, EncodeDef, Owns;
    var more := tables + [td];
    assert more[|tables|] == td && forall i :: 0 <= i < |tables| ==> more[i] == tables[i];
    MetaHasPrefix();
    DefHasPrefix(td.name);
    forall key, p: nat | key in n && HasPrefix(key, p) && p < PREFIX_LIMIT
      ensures HasOwner(more, key, p)
    {
      if key == MetaKey() {
        PrefixesApart(key, p, META_PREFIX);
      } else if key == DefKey(td.name) {
        PrefixesApart(key, p, TABLE_PREFIX);
      } else {
        assert HasOwner(tables, key, p);
      }
    }
  }

  lemma BelowMore(td: TableDef, next: nat, more: nat)
    requires Below(td, next) && next <= more
    ensures Below(td, more)
  {
  }

  lemma RanksBelow(td: TableDef, given: nat, next: nat)
    requires TABLE_PREFIX_MIN <= given && Rank(td.prefix) == given && given + |td.indexPrefixes| < next
    requires forall i :: 0 <= i < |td.indexPrefixes| ==> Rank(td.indexPrefixes[i]) == given + 1 + i
    ensures Below(td, next)
  {
  }

  lemma CatalogExtended(n: map<Key, Key>, tables: seq<TableDef>, rows: seq<Rows>, td: TableDef)
    requires AllPrefixed(n) && |tables| == |rows| && TABLE_PREFIX_MIN <= Given(n) <= PREFIX_LIMIT + 1
    requires forall i :: 0 <= i < |tables| ==> Agrees(n, tables[i], rows[i]) && Apart(tables[i], td) && Below(tables[i], Given(n))
    requires forall i, j :: 0 <= i < j < |tables| ==> Apart(tables[i], tables[j])
    requires Agrees(n, td, map[]) && Below(td, Given(n))
    requires Declared(n, tables + [td]) && Accounted(n, tables + [td])
    ensures CatalogOk(n, tables + [td], rows + [map[]])
  {
    hide Agrees, Apart, Below, Given, HasPrefix, AllPrefixed, Declared, Accounted;
  }

  lemma GivenAfter(m: map<Key, Key>, n: map<Key, Key>, k: nat)
    requires TABLE_PREFIX_MIN <= Given(m) && Given(m) + k <= PREFIX_LIMIT
    requires NextPrefix(n) == (NextPrefix(m) + (1 + k) % PREFIX_LIMIT) % PREFIX_LIMIT
    ensures Given(n) == Given(m) + 1 + k
  {
    hide InternalKey, FromBigEndian;
    NextPrefixBound(m);
    hide NextPrefix;
  }

  lemma RanksApart(a: TableDef, b: TableDef, next: nat)
    requires Below(a, next) && next <= Rank(b.prefix) && forall i :: 0 <= i < |b.indexPrefixes| ==> next <= Rank(b.indexPrefixes[i])
    ensures Apart(a, b)
  {
  }

  /** Only keys under the two reserved prefixes differ. */
  ghost predicate SameAbove(m: map<Key, Key>, n: map<Key, Key>)
  {
    forall p: nat :: TABLE_PREFIX_MIN <= Rank(p) && p < PREFIX_LIMIT ==> SameUnder(m, n, p)
  }

  lemma ReservedOnly(m: map<Key, Key>, mid: map<Key, Key>, n: map<Key, Key>, name: Key, encoded: Key)
    requires SameBut(m, mid, MetaKey()) && n == mid[DefKey(name) := encoded]
    ensures SameAbove(m, n) && NextPrefix(n) == NextPrefix(mid)
  {
    hide HasPrefix, SameUnder, SameBut, InternalKey, FromBigEndian;
    var meta, key := MetaKey(), DefKey(name);
    InternalHasPrefix(META_PREFIX, NEXT_PREFIX);
    InternalHasPrefix(TABLE_PREFIX, name);
    SetIsOneKey(mid, key, encoded);
    forall p: nat | TABLE_PREFIX_MIN <= Rank(p) && p < PREFIX_LIMIT
      ensures SameUnder(m, n, p)
    {
      OneKeyChanged(m, mid, meta, META_PREFIX, p);
      OneKeyChanged(mid, n, key, TABLE_PREFIX, p);
      SameUnderChain(m, mid, n, p);
    }
    ReservedApart(meta, key);
  }

  lemma ReservedApart(meta: Key, key: Key)
    requires HasPrefix(meta, META_PREFIX) && HasPrefix(key, TABLE_PREFIX)
    ensures meta != key
  {
    if meta == key {
      PrefixesApart(key, META_PREFIX, TABLE_PREFIX);
      assert false;
    }
  }

  lemma KeptByReserved(m: map<Key, Key>, n: map<Key, Key>, td: TableDef, rows: Rows, next: nat)
    requires SameAbove(m, n) && Agrees(m, td, rows) && Below(td, next)
    ensures Agrees(n, td, rows)
  {
    hide HasPrefix, SameUnder, RowsAgree, IndexAgrees, RowsOk;
    RowsFrame(m, n, td, rows);
    forall i: nat | i < |td.indexes|
      ensures IndexAgrees(n, td, i, rows)
    {
      IndexFrame(m, n, td, i, rows);
    }
  }

  lemma NothingYet(m: map<Key, Key>, n: map<Key, Key>, td: TableDef, next: nat)
    requires SameAbove(m, n) && TableOk(td) && TABLE_PREFIX_MIN <= next
    requires forall p: nat :: Owns(td, p) ==> next <= Rank(p) && p < PREFIX_LIMIT
    requires forall key, p: nat :: key in m && HasPrefix(key, p) && p < PREFIX_LIMIT ==> Rank(p) < next
    ensures Agrees(n, td, map[])
  {
    hide HasPrefix, IndexOk;
    assert Owns(td, td.prefix);
    NoneUnder(m, n, td.prefix, next);
    forall i: nat | i < |td.indexes|
      ensures IndexAgrees(n, td, i, map[])
    {
      assert Owns(td, td.indexPrefixes[i]);
      NoneUnder(m, n, td.indexPrefixes[i], next);
    }
  }

  lemma NoneUnder(m: map<Key, Key>, n: map<Key, Key>, p: nat, next: nat)
    requires SameAbove(m, n) && TABLE_PREFIX_MIN <= next <= Rank(p) && p < PREFIX_LIMIT
    requires forall key, q: nat :: key in m && HasPrefix(key, q) && q < PREFIX_LIMIT ==> Rank(q) < next
    ensures forall key :: key in n ==> !HasPrefix(key, p)
  {
    hide HasPrefix;
    assert SameUnder(m, n, p);
    forall key | key in n
      ensures !HasPrefix(key, p)
    {
      assert HasPrefix(key, p) ==> key in m;
    }
  }

  lemma PrefixedReserved(m: map<Key, Key>, mid: map<Key, Key>, n: map<Key, Key>, name: Key, encoded: Key)
    requires AllPrefixed(m) && SameBut(m, mid, MetaKey())
    requires n == mid[DefKey(name) := encoded]
    ensures AllPrefixed(n)
  {
    hide PrefixCode;
  }

  // ------------------------------------------------------------ reading a definition

  /** KeyRefused is get's exception; NoDefinition stands for the null pointer. */
  datatype Definition = KeyRefused | NoDefinition | Definition(td: TableDef)

  /** The definition under this name, exactly as created if and only if its names can be read back. */
  ghost predicate Finds(r: Definition, name: Name, tables: seq<TableDef>)
  {
    && (r.KeyRefused? <==> !KeyInLimit(DefKey(name)))
    && ((forall i :: 0 <= i < |tables| ==> tables[i].name != name) ==> !r.Definition?)
    && (KeyInLimit(DefKey(name)) ==>
          forall i :: 0 <= i < |tables| && tables[i].name == name ==> (r == Definition(tables[i]) <==> PlainNames(tables[i])))
  }

  /** What get_table_def_from_kv makes of what get returns. */
  method DefinitionOf(got: Lookup, name: Name, ghost m: map<Key, Key>, ghost tables: seq<TableDef>) returns (r: Definition)
    requires Declared(m, tables) && Accounted(m, tables) && (got.Refused? <==> !KeyInLimit(DefKey(name)))
    requires !got.Refused? ==> got == if DefKey(name) in m then Found(m[DefKey(name)]) else Missing
    ensures Finds(r, name, tables)
  {
    hide HasPrefix, DefKey, KeyInLimit, PlainNames, FitsFields, EncodeDef, DecodeDef;
    match got
    case Refused => r := KeyRefused;
    case Missing =>
      r := NoDefinition;
      forall i | 0 <= i < |tables|
        ensures tables[i].name != name
      {
        DeclaredIs(m, tables, i);
      }
    case Found(text) =>
      ghost var j := DeclaredIn(m, tables, name);
      DefColumns(tables[j]);
      DecodeDefEncodeDef(tables[j]);
      var td := DecodeTableDef(text);
      r := if td.None? then NoDefinition else Definition(td.value);
  }

  /** A column name with a space in it. */
  const SPACED: TableDef := TableDef(NAME, [COL_P, COL_A + [SPACE] + COL_B], [INT_64, INT_64], 1, [], 3, [])

  /** It is accepted, and does not come back from its text. */
  lemma SpacedNameIsLost()
    ensures Declarable(SPACED) && DecodeDef(EncodeDef(SPACED)) != Some(SPACED)
  {
    var name := SPACED.cols[1];
    assert IsSpace(name[1]) && !Plain(name);
    DecodeDefEncodeDef(SPACED);
  }

  // ------------------------------------------------------------ a definition that gets the catalog's prefix

  /** Two indexes, each completed with the primary key. */
  const LAST: TableDef := TableDef(NAME, [COL_P, COL_A, COL_B], [INT_64, INT_64, INT_64], 1, [[COL_A], [COL_B]], 0, [])

  /** Prefix 2^32 - 1 is next, and there are no tables any more. */
  function NearlyOut(): map<Key, Key>
  {
    map[MetaKey() := [255, 255, 255, 255]]
  }

  /** It is accepted, and its second index gets prefix 1. */
  lemma PrefixesRunOut()
    ensures Declarable(LAST) && LAST.prefix == 0 && LAST.indexPrefixes == []
    ensures CatalogOk(NearlyOut(), [], []) && Given(NearlyOut()) + |LAST.indexes| > PREFIX_LIMIT
  {
    hide HasPrefix, PrefixCode;
    var m := NearlyOut();
    InternalHasPrefix(META_PREFIX, NEXT_PREFIX);
    AllOnes();
    assert NextPrefix(m) == 0xffff_ffff;
    forall key, p: nat | key in m && HasPrefix(key, p) && p < PREFIX_LIMIT
      ensures HasOwner([], key, p)
    {
      PrefixesApart(key, p, META_PREFIX);
    }
    LastIndexes();
  }

  lemma AllOnes()
    ensures FromBigEndian([255, 255, 255, 255]) == 0xffff_ffff
  {
    var a, b, c, d := [255], [255, 255], [255, 255, 255], [255, 255, 255, 255];
    assert a[..0] == [] && b[..1] == a && c[..2] == b && d[..3] == c;
  }

  lemma LastIndexes()
    ensures Indexable(LAST, [COL_A]) && Indexable(LAST, [COL_B])
  {
    assert Pk(LAST) == [COL_P] && [COL_P][1..] == [];
    assert LAST.cols[1] == COL_A && LAST.cols[2] == COL_B;
  }

  /** A new store is consistent, with no tables. */
  lemma EmptyCatalog()
    ensures CatalogOk(map[], [], [])
  {
  }
}

/** Rows and their index keys in a write transaction (src/access/table_access.cpp, src/access/index_ops.cpp). */
module TableAccess {
  import opened Bytes
  import opened Nodes
  import opened KvTx
  import opened BTrees
  import opened BTreeReads
  import opened TreeEdit
  import opened TreeShapes
  import opened DeleteLimits
  import opened KvStore
  import opened OrderPreserving
  import opened RowCodec
  import opened Tables

  /** The live rows: primary key values to the values of the other columns. */
  type Rows = map<seq<Value>, seq<Value>>

  predicate HasPrefix(key: Key, prefix: nat)
  {
    |key| >= PREFIX_SIZE && key[..PREFIX_SIZE] == PrefixCode(prefix)
  }

  ghost predicate RowsOk(td: TableDef, rows: Rows)
  {
    forall pk :: pk in rows ==> |pk| == td.pkeys && RowOk(td, pk + rows[pk])
  }

  /** A table with a column of type ERROR stays empty. */
  lemma ErrorColumnMeansNoRows(td: TableDef, rows: Rows, i: nat)
    requires RowsOk(td, rows) && i < |td.types| && td.types[i] == ERROR
    ensures rows == map[]
  {
    forall row: Row
      ensures !RowOk(td, row)
    {
      ErrorRow(td, row, i);
    }
  }

  lemma ErrorRow(td: TableDef, row: Row, i: nat)
    requires i < |td.types| && td.types[i] == ERROR
    ensures !RowOk(td, row)
  {
    if |row| == |td.types| {
      assert Types(row)[i] == row[i].Type();
    }
  }

  // ------------------------------------------------------------ what the keys should be

  /** The key of a row, or of its entry in an index; total, for use in quantifiers. */
  ghost function RowKey(td: TableDef, pk: seq<Value>): Key
  {
    if Storable(pk) then EncodeKey(td.prefix, pk) else []
  }

  ghost function IndexKey(td: TableDef, i: nat, row: Row): Key
    requires i < |td.indexes| == |td.indexPrefixes|
  {
    if |row| == |td.cols| && (forall c :: c in td.indexes[i] ==> c in td.cols) && Storable(Project(td, td.indexes[i], row))
    then EncodeKey(td.indexPrefixes[i], Project(td, td.indexes[i], row)) else []
  }

  /** The keys under the table's prefix are exactly the rows' keys, bound to their other columns. */
  ghost predicate RowsAgree(m: map<Key, Key>, td: TableDef, rows: Rows)
  {
    && (forall pk :: pk in rows ==> RowKey(td, pk) in m && Storable(rows[pk]) && m[RowKey(td, pk)] == Encode(rows[pk]))
    && (forall key :: key in m && HasPrefix(key, td.prefix) ==> exists pk :: pk in rows && RowKey(td, pk) == key)
  }

  /** The keys under an index's prefix are exactly one for each row, bound to nothing. */
  ghost predicate IndexAgrees(m: map<Key, Key>, td: TableDef, i: nat, rows: Rows)
    requires i < |td.indexes| == |td.indexPrefixes|
  {
    && (forall pk :: pk in rows ==> IndexKey(td, i, pk + rows[pk]) in m && m[IndexKey(td, i, pk + rows[pk])] == [])
    && (forall key :: key in m && HasPrefix(key, td.indexPrefixes[i]) ==>
          exists pk :: pk in rows && IndexKey(td, i, pk + rows[pk]) == key)
  }

  ghost predicate IndexesAgree(m: map<Key, Key>, td: TableDef, rows: Rows)
    requires |td.indexes| == |td.indexPrefixes|
  {
    forall i: nat :: i < |td.indexes| ==> IndexAgrees(m, td, i, rows)
  }

  /** The table's keys in m are those of rows and of nothing else. */
  ghost predicate Agrees(m: map<Key, Key>, td: TableDef, rows: Rows)
  {
    TableOk(td) && RowsOk(td, rows) && RowsAgree(m, td, rows) && IndexesAgree(m, td, rows)
  }

  /** The two maps agree on every key under this prefix. */
  ghost predicate SameUnder(m: map<Key, Key>, n: map<Key, Key>, prefix: nat)
  {
    forall key :: HasPrefix(key, prefix) ==> (key in m <==> key in n) && (key in m ==> m[key] == n[key])
  }

  /** Nothing but keys under the table's own prefixes has changed. */
  ghost predicate OthersSame(m: map<Key, Key>, n: map<Key, Key>, td: TableDef)
  {
    forall key :: !HasPrefix(key, td.prefix) && (forall i :: 0 <= i < |td.indexPrefixes| ==> !HasPrefix(key, td.indexPrefixes[i])) ==>
      (key in m <==> key in n) && (key in m ==> m[key] == n[key])
  }

  /** Every key is long enough to have a prefix. */
  ghost predicate AllPrefixed(m: map<Key, Key>)
  {
    forall key :: key in m ==> |key| >= PREFIX_SIZE
  }

  // ------------------------------------------------------------ keys stay under their prefix

  lemma PrefixesApart(key: Key, p: nat, q: nat)
    requires HasPrefix(key, p) && HasPrefix(key, q) && p < PREFIX_LIMIT && q < PREFIX_LIMIT
    ensures p == q
  {
    assert Power(0) == 1 && Power(1) == 256 && Power(2) == 0x1_0000 && Power(3) == 0x100_0000 && Power(4) == PREFIX_LIMIT;
    FromBigEndianOf(p, 4);
    FromBigEndianOf(q, 4);
  }

  lemma EncodedHasPrefix(p: nat, vs: seq<Value>)
    requires Storable(vs)
    ensures HasPrefix(EncodeKey(p, vs), p)
  {
  }

  lemma RowParts(td: TableDef, row: Row)
    requires TableOk(td) && RowOk(td, row)
    ensures |row| == |td.cols| && Storable(row[..td.pkeys]) && Storable(row[td.pkeys..])
    ensures row[..td.pkeys] + row[td.pkeys..] == row
    ensures HasPrefix(RowKey(td, row[..td.pkeys]), td.prefix) && RowKey(td, row[..td.pkeys]) == EncodeKey(td.prefix, row[..td.pkeys])
  {
    RowStorable(td, row);
  }

  lemma IndexKeyParts(td: TableDef, i: nat, row: Row)
    requires TableOk(td) && RowOk(td, row) && i < |td.indexes|
    ensures |row| == |td.cols| && (forall c :: c in td.indexes[i] ==> c in td.cols)
    ensures Storable(Project(td, td.indexes[i], row))
    ensures IndexKey(td, i, row) == EncodeKey(td.indexPrefixes[i], Project(td, td.indexes[i], row))
    ensures HasPrefix(IndexKey(td, i, row), td.indexPrefixes[i])
  {
    assert IndexOk(td, td.indexes[i]);
    ProjectTypes(td, td.indexes[i], row);
  }

  /** Different primary keys have different row keys. */
  lemma RowKeysDistinct(td: TableDef, rows: Rows, pk: seq<Value>, q: seq<Value>)
    requires TableOk(td) && RowsOk(td, rows) && q in rows && Types(pk) == td.types[..td.pkeys] && RowKey(td, pk) == RowKey(td, q)
    requires Storable(pk)
    ensures pk == q
  {
    hide Encode, EncodeKey;
    RowStorable(td, q + rows[q]);
    assert (q + rows[q])[..td.pkeys] == q;
    KeysAreDistinct(td.prefix, pk, td.prefix, q);
  }

  /** The map decides a table's rows. */
  lemma RowsAreUnique(m: map<Key, Key>, td: TableDef, a: Rows, b: Rows)
    requires TableOk(td) && RowsOk(td, a) && RowsAgree(m, td, a) && RowsOk(td, b) && RowsAgree(m, td, b)
    ensures a == b
  {
    hide TableOk, RowsOk, RowsAgree;
    RowsIncluded(m, td, a, b);
    RowsIncluded(m, td, b, a);
  }

  lemma RowsIncluded(m: map<Key, Key>, td: TableDef, a: Rows, b: Rows)
    requires TableOk(td) && RowsOk(td, a) && RowsAgree(m, td, a) && RowsOk(td, b) && RowsAgree(m, td, b)
    ensures forall pk :: pk in a ==> pk in b && a[pk] == b[pk]
  {
    hide Encode, HasPrefix, Types, RowKey, Storable, TableOk, RowOk;
    forall pk | pk in a
      ensures pk in b && a[pk] == b[pk]
    {
      StoredRowParts(td, a, pk);
      RowHasPrefix(td, pk);
      var q :| q in b && RowKey(td, q) == RowKey(td, pk);
      RowKeysDistinct(td, b, pk, q);
      StoredRowParts(td, b, pk);
      DecodeEncode(a[pk]);
      DecodeEncode(b[pk]);
    }
  }

  lemma RowHasPrefix(td: TableDef, pk: seq<Value>)
    requires Storable(pk)
    ensures HasPrefix(RowKey(td, pk), td.prefix)
  {
    EncodedHasPrefix(td.prefix, pk);
  }

  lemma StoredRowParts(td: TableDef, rows: Rows, pk: seq<Value>)
    requires TableOk(td) && RowsOk(td, rows) && pk in rows
    ensures Storable(pk) && Storable(rows[pk]) && td.pkeys <= |td.types|
    ensures Types(pk) == td.types[..td.pkeys] && Types(rows[pk]) == td.types[td.pkeys..]
  {
    var row := pk + rows[pk];
    RowStorable(td, row);
    assert row[..td.pkeys] == pk && row[td.pkeys..] == rows[pk];
  }

  /** Rows with different primary keys have different keys in every index. */
  lemma IndexKeysDistinct(td: TableDef, i: nat, a: Row, b: Row)
    requires TableOk(td) && RowOk(td, a) && RowOk(td, b) && i < |td.indexes| && IndexKey(td, i, a) == IndexKey(td, i, b)
    ensures |a| == |b| == |td.cols| && a[..td.pkeys] == b[..td.pkeys]
  {
    hide Encode, EncodeKey, Project;
    IndexKeyParts(td, i, a);
    IndexKeyParts(td, i, b);
    ProjectTypes(td, td.indexes[i], a);
    ProjectTypes(td, td.indexes[i], b);
    KeysAreDistinct(td.indexPrefixes[i], Project(td, td.indexes[i], a), td.indexPrefixes[i], Project(td, td.indexes[i], b));
    IndexTupleHasPk(td, td.indexes[i], a, b);
  }

  lemma IndexKeyTellsPk(td: TableDef, i: nat, p: seq<Value>, a: seq<Value>, q: seq<Value>, b: seq<Value>)
    requires TableOk(td) && RowOk(td, p + a) && RowOk(td, q + b) && i < |td.indexes|
    requires |p| == |q| == td.pkeys && IndexKey(td, i, p + a) == IndexKey(td, i, q + b)
    ensures p == q
  {
    IndexKeysDistinct(td, i, p + a, q + b);
    assert (p + a)[..td.pkeys] == p && (q + b)[..td.pkeys] == q;
  }

  // ------------------------------------------------------------ frames and single steps

  /** The two maps agree on every key but this one. */
  ghost predicate SameBut(m: map<Key, Key>, n: map<Key, Key>, key: Key)
  {
    forall k :: k != key ==> (k in m <==> k in n) && (k in m && k in n ==> m[k] == n[k])
  }

  lemma RowsFrame(m: map<Key, Key>, n: map<Key, Key>, td: TableDef, rows: Rows)
    requires TableOk(td) && RowsOk(td, rows) && RowsAgree(m, td, rows) && SameUnder(m, n, td.prefix)
    ensures RowsAgree(n, td, rows)
  {
    forall pk | pk in rows
      ensures RowKey(td, pk) in m && RowKey(td, pk) in n && n[RowKey(td, pk)] == m[RowKey(td, pk)]
    {
      RowParts(td, pk + rows[pk]);
      assert (pk + rows[pk])[..td.pkeys] == pk;
    }
  }

  lemma IndexFrame(m: map<Key, Key>, n: map<Key, Key>, td: TableDef, i: nat, rows: Rows)
    requires TableOk(td) && RowsOk(td, rows) && i < |td.indexes| && IndexAgrees(m, td, i, rows)
    requires SameUnder(m, n, td.indexPrefixes[i])
    ensures IndexAgrees(n, td, i, rows)
  {
    forall pk | pk in rows
      ensures var key := IndexKey(td, i, pk + rows[pk]); key in m && key in n && n[key] == m[key]
    {
      IndexKeyParts(td, i, pk + rows[pk]);
    }
  }

  /** A change to one key leaves everything under other prefixes alone. */
  lemma OneKeyChanged(m: map<Key, Key>, n: map<Key, Key>, key: Key, p: nat, q: nat)
    requires HasPrefix(key, p) && p < PREFIX_LIMIT && q < PREFIX_LIMIT && p != q
    requires SameBut(m, n, key)
    ensures SameUnder(m, n, q)
  {
    forall k | HasPrefix(k, q)
      ensures (k in m <==> k in n) && (k in m ==> m[k] == n[k])
    {
      if k == key {
        PrefixesApart(key, p, q);
        assert false;
      }
    }
  }

  lemma OthersAfterOneKey(m: map<Key, Key>, n: map<Key, Key>, key: Key, td: TableDef)
    requires HasPrefix(key, td.prefix) || exists i :: 0 <= i < |td.indexPrefixes| && HasPrefix(key, td.indexPrefixes[i])
    requires SameBut(m, n, key)
    ensures OthersSame(m, n, td)
  {
  }

  lemma OthersChain(l: map<Key, Key>, m: map<Key, Key>, n: map<Key, Key>, td: TableDef)
    requires OthersSame(l, m, td) && OthersSame(m, n, td)
    ensures OthersSame(l, n, td)
  {
  }

  /** A row written under its key. */
  lemma RowWritten(m: map<Key, Key>, td: TableDef, rows: Rows, row: Row)
    requires TableOk(td) && RowsOk(td, rows) && RowsAgree(m, td, rows) && RowOk(td, row)
    ensures |row| == |td.cols| && Storable(row[td.pkeys..])
    ensures RowsOk(td, rows[row[..td.pkeys] := row[td.pkeys..]])
    ensures RowsAgree(m[RowKey(td, row[..td.pkeys]) := Encode(row[td.pkeys..])], td, rows[row[..td.pkeys] := row[td.pkeys..]])
  {
    hide Encode, EncodeKey, HasPrefix;
    RowParts(td, row);
    RowStorable(td, row);
    var pk, cols := row[..td.pkeys], row[td.pkeys..];
    var key, more := RowKey(td, pk), rows[pk := cols];
    var n := m[key := Encode(cols)];
    forall q | q in more
      ensures |q| == td.pkeys && RowOk(td, q + more[q])
      ensures RowKey(td, q) in n && Storable(more[q]) && n[RowKey(td, q)] == Encode(more[q])
    {
      if q != pk && RowKey(td, q) == key {
        RowKeysDistinct(td, rows, pk, q);
      }
    }
    forall k | k in n && HasPrefix(k, td.prefix)
      ensures exists q :: q in more && RowKey(td, q) == k
    {
      if k == key {
        assert pk in more;
      } else {
        var q :| q in rows && RowKey(td, q) == k;
        assert q in more;
      }
    }
  }

  lemma RowErased(m: map<Key, Key>, td: TableDef, rows: Rows, pk: seq<Value>)
    requires TableOk(td) && RowsOk(td, rows) && RowsAgree(m, td, rows) && pk in rows
    ensures RowsOk(td, rows - {pk}) && RowsAgree(m - {RowKey(td, pk)}, td, rows - {pk})
  {
    hide Encode, EncodeKey, HasPrefix, Types, RowKey, RowsOk, TableOk, RowOk, Storable;
    FewerRowsOk(td, rows, pk);
    var fewer, n := rows - {pk}, m - {RowKey(td, pk)};
    forall q | q in fewer
      ensures RowKey(td, q) in n
    {
      OtherRowKey(td, rows, pk, q);
    }
    forall k | k in n && HasPrefix(k, td.prefix)
      ensures exists q :: q in fewer && RowKey(td, q) == k
    {
      var q :| q in rows && RowKey(td, q) == k;
      assert q in fewer;
    }
  }

  lemma OtherRowKey(td: TableDef, rows: Rows, p: seq<Value>, q: seq<Value>)
    requires TableOk(td) && RowsOk(td, rows) && p in rows && q in rows && p != q
    ensures RowKey(td, p) != RowKey(td, q)
  {
    RowStorable(td, p + rows[p]);
    assert (p + rows[p])[..td.pkeys] == p;
    if RowKey(td, p) == RowKey(td, q) {
      RowKeysDistinct(td, rows, p, q);
    }
  }

  /** A row's index key added: it was not there, since no other row can have it. */
  lemma IndexKeyAdded(m: map<Key, Key>, td: TableDef, i: nat, rows: Rows, pk: seq<Value>, cols: seq<Value>)
    requires TableOk(td) && RowsOk(td, rows) && i < |td.indexes| && IndexAgrees(m, td, i, rows)
    requires pk !in rows && |pk| == td.pkeys && RowOk(td, pk + cols)
    ensures IndexKey(td, i, pk + cols) !in m
    ensures IndexAgrees(m[IndexKey(td, i, pk + cols) := []], td, i, rows[pk := cols])
  {
    hide Encode, EncodeKey, Project, HasPrefix, IndexKey;
    var key, more := IndexKey(td, i, pk + cols), rows[pk := cols];
    IndexKeyParts(td, i, pk + cols);
    if key in m {
      var q :| q in rows && IndexKey(td, i, q + rows[q]) == key;
      IndexKeyTellsPk(td, i, pk, cols, q, rows[q]);
      assert false;
    }
    var n := m[key := []];
    forall k | k in n && HasPrefix(k, td.indexPrefixes[i])
      ensures exists q :: q in more && IndexKey(td, i, q + more[q]) == k
    {
      if k == key {
        assert pk in more && more[pk] == cols;
      } else {
        var q :| q in rows && IndexKey(td, i, q + rows[q]) == k;
        assert q in more && more[q] == rows[q];
      }
    }
  }

  /** A row's index key removed: it was there. */
  lemma IndexKeyRemoved(m: map<Key, Key>, td: TableDef, i: nat, rows: Rows, pk: seq<Value>)
    requires TableOk(td) && RowsOk(td, rows) && i < |td.indexes| && IndexAgrees(m, td, i, rows) && pk in rows
    ensures IndexKey(td, i, pk + rows[pk]) in m
    ensures IndexAgrees(m - {IndexKey(td, i, pk + rows[pk])}, td, i, rows - {pk})
  {
    hide Encode, EncodeKey, Project, HasPrefix, IndexKey;
    var key, fewer := IndexKey(td, i, pk + rows[pk]), rows - {pk};
    var n := m - {key};
    forall q | q in fewer
      ensures IndexKey(td, i, q + fewer[q]) in n && n[IndexKey(td, i, q + fewer[q])] == []
    {
      if IndexKey(td, i, q + rows[q]) == key {
        IndexKeyTellsPk(td, i, pk, rows[pk], q, rows[q]);
      }
    }
    forall k | k in n && HasPrefix(k, td.indexPrefixes[i])
      ensures exists q :: q in fewer && IndexKey(td, i, q + fewer[q]) == k
    {
      var q :| q in rows && IndexKey(td, i, q + rows[q]) == k;
      assert q in fewer && fewer[q] == rows[q];
    }
  }

  // ------------------------------------------------------------ indexes of one row

  datatype IndexOp = IndexAdd | IndexDel

  /** Thrown stands for an exception, Crashed for the assert of an overflowing page on deletion. */
  datatype Outcome = Done | Malformed | Refused | Thrown | Crashed

  /** rec shows the row, in any column order. */
  ghost predicate Shows(td: TableDef, rec: Record, row: Row)
  {
    && |rec.cols| == |rec.vals| && |row| == |td.cols|
    && forall c :: c in td.cols ==> Field(rec, c) == Some(row[ColIndex(td.cols, c)])
  }

  /** The row's key in every index, in their order. */
  ghost function IndexKeys(td: TableDef, row: Row): (keys: seq<Key>)
    requires |td.indexes| == |td.indexPrefixes|
    ensures |keys| == |td.indexes|
  {
    seq(|td.indexes|, i requires 0 <= i < |td.indexes| => IndexKey(td, i, row))
  }

  /** With row stored over an older one, each of the older one's index keys has a successor no longer than itself. */
  ghost predicate OldKeysShort(m: map<Key, Key>, td: TableDef, rows: Rows, row: Row)
    requires td.pkeys <= |row| && |td.indexes| == |td.indexPrefixes|
  {
    var pk, cols := row[..td.pkeys], row[td.pkeys..];
    Storable(row) && pk in rows && ChainShort(m[RowKey(td, pk) := Encode(cols)], IndexKeys(td, pk + rows[pk]))
  }

  /** The keys that deleting a row unbinds, in that order. */
  ghost function RowKeys(td: TableDef, row: Row): (keys: seq<Key>)
    requires |td.indexes| == |td.indexPrefixes| && td.pkeys <= |row|
    ensures |keys| == 1 + |td.indexes|
  {
    [RowKey(td, row[..td.pkeys])] + IndexKeys(td, row)
  }

  ghost predicate IndexKeysFit(td: TableDef, row: Row)
    requires |td.indexes| == |td.indexPrefixes|
  {
    forall i: nat :: i < |td.indexes| ==> KeyInLimit(IndexKey(td, i, row))
  }

  /** What db_delete comes to, given the rows and how the tree stores them: known before the call. */
  ghost function DeleteOutcome(td: TableDef, rows: Rows, shape: Root, pk: seq<Value>): Outcome
    requires |td.indexes| == |td.indexPrefixes| && td.pkeys <= |pk|
  {
    if !Storable(pk) || !KeyInLimit(RowKey(td, pk)) then Outcome.Thrown
    else if pk !in rows then Outcome.Refused
    else if !ChainFits(shape, RowKeys(td, pk + rows[pk])) then Crashed
    else Done
  }

  /** What db_update comes to. A row replaced has its old index keys deleted after the row itself is written. */
  ghost function UpdateOutcome(td: TableDef, rows: Rows, shape: Root, row: Row, mode: UpdateMode): Outcome
    requires |td.indexes| == |td.indexPrefixes| && td.pkeys <= |row|
  {
    if !Storable(row) || !KeyInLimit(RowKey(td, row[..td.pkeys])) then Outcome.Thrown
    else
      var pk, val := row[..td.pkeys], Encode(row[td.pkeys..]);
      if !mode.Permits(pk in rows) then Outcome.Refused
      else if |val| > MAX_VAL then Outcome.Thrown
      else if pk in rows && !ChainFits(GrownRoot(shape, RowKey(td, pk), val), IndexKeys(td, pk + rows[pk])) then Crashed
      else if !IndexKeysFit(td, row) then Outcome.Thrown
      else Done
  }

  /** Each outcome of an update has its causes in the rows, the record, the mode and the keys' sizes. */
  lemma UpdateCauses(td: TableDef, rows: Rows, shape: Root, row: Row, mode: UpdateMode)
    requires |td.indexes| == |td.indexPrefixes| && td.pkeys <= |row|
    ensures var r, pk := UpdateOutcome(td, rows, shape, row, mode), row[..td.pkeys];
            var storable := Storable(row) && KeyInLimit(RowKey(td, pk));
            var refused := (mode.InsertOnly? && pk in rows) || (mode.UpdateOnly? && pk !in rows);
            && (r.Refused? <==> storable && refused)
            && (!storable ==> r.Thrown?)
            && (storable && !refused ==>
                  var val := Encode(row[td.pkeys..]);
                  var crash := pk in rows && !ChainFits(GrownRoot(shape, RowKey(td, pk), val), IndexKeys(td, pk + rows[pk]));
                  var tooLong := exists i: nat :: i < |td.indexes| && !KeyInLimit(IndexKey(td, i, row));
                  && (r.Thrown? <==> |val| > MAX_VAL || (!crash && tooLong))
                  && (r.Crashed? <==> |val| <= MAX_VAL && crash)
                  && (r.Done? <==> |val| <= MAX_VAL && !crash && !tooLong))
  {
    hide RowKey, Encode, ChainFits, GrownRoot, IndexKeys, IndexKey, KeyInLimit;
  }

  /** And of a delete. */
  lemma DeleteCauses(td: TableDef, rows: Rows, shape: Root, pk: seq<Value>)
    requires |td.indexes| == |td.indexPrefixes| && td.pkeys <= |pk|
    ensures var r := DeleteOutcome(td, rows, shape, pk);
            var storable := Storable(pk) && KeyInLimit(RowKey(td, pk));
            && (r.Thrown? <==> !storable)
            && (r.Refused? <==> storable && pk !in rows)
            && (r.Crashed? <==> storable && pk in rows && !ChainFits(shape, RowKeys(td, pk + rows[pk])))
            && (r.Done? <==> storable && pk in rows && ChainFits(shape, RowKeys(td, pk + rows[pk])))
  {
    hide RowKey, ChainFits, RowKeys, KeyInLimit;
  }

  /** How far an index operation has come: the first n indexes agree with after, the others with before. */
  ghost predicate Between(m: map<Key, Key>, td: TableDef, n: nat, before: Rows, after: Rows)
    requires |td.indexes| == |td.indexPrefixes|
  {
    && (forall i: nat :: i < n && i < |td.indexes| ==> IndexAgrees(m, td, i, after))
    && (forall i: nat :: n <= i < |td.indexes| ==> IndexAgrees(m, td, i, before))
  }

  /** One index done: the others are untouched, as their keys have other prefixes. */
  lemma BetweenStep(m: map<Key, Key>, n: map<Key, Key>, td: TableDef, i: nat, before: Rows, after: Rows, key: Key)
    requires TableOk(td) && RowsOk(td, before) && RowsOk(td, after) && i < |td.indexes| && Between(m, td, i, before, after)
    requires HasPrefix(key, td.indexPrefixes[i]) && IndexAgrees(n, td, i, after)
    requires SameBut(m, n, key)
    ensures Between(n, td, i + 1, before, after) && SameUnder(m, n, td.prefix) && OthersSame(m, n, td)
  {
    hide HasPrefix, IndexAgrees, SameUnder, OthersSame, RowsOk, IndexOk;
    OneKeyChanged(m, n, key, td.indexPrefixes[i], td.prefix);
    OthersAfterOneKey(m, n, key, td);
    forall j: nat | j < i
      ensures IndexAgrees(n, td, j, after)
    {
      OneKeyChanged(m, n, key, td.indexPrefixes[i], td.indexPrefixes[j]);
      IndexFrame(m, n, td, j, after);
    }
    forall j: nat | i < j < |td.indexes|
      ensures IndexAgrees(n, td, j, before)
    {
      OneKeyChanged(m, n, key, td.indexPrefixes[i], td.indexPrefixes[j]);
      IndexFrame(m, n, td, j, before);
    }
  }

  lemma SameUnderChain(l: map<Key, Key>, m: map<Key, Key>, n: map<Key, Key>, p: nat)
    requires SameUnder(l, m, p) && SameUnder(m, n, p)
    ensures SameUnder(l, n, p)
  {
  }

  /** The values index_op reads off a record are the row's projection. */
  method IndexValues(td: TableDef, rec: Record, i: nat, ghost row: Row) returns (vs: seq<Value>)
    requires TableOk(td) && i < |td.indexes| && Shows(td, rec, row)
    ensures forall c :: c in td.indexes[i] ==> c in td.cols
    ensures vs == Project(td, td.indexes[i], row)
  {
    assert IndexOk(td, td.indexes[i]);
    vs := [];
    for j := 0 to |td.indexes[i]|
      invariant |vs| == j && forall k :: 0 <= k < j ==> vs[k] == Project(td, td.indexes[i], row)[k]
    {
      var c := td.indexes[i][j];
      assert c in td.cols;
      var v := Field(rec, c);
      vs := vs + [v.value];
    }
  }

  /**
   * Bring every index in step with one row added or removed. `assert done` is the source's assertion; it never fails.
   */
  method ApplyIndexOp(kv: KV, tx: KVTX, td: TableDef, rec: Record, op: IndexOp, ghost before: Rows, ghost after: Rows,
                      ghost pk: seq<Value>, ghost cols: seq<Value>) returns (r: Outcome)
    requires kv.Valid() && kv.Running(tx)
    requires TableOk(td) && RowsOk(td, before) && RowsOk(td, after) && |pk| == td.pkeys && RowOk(td, pk + cols)
    requires Shows(td, rec, pk + cols) && IndexesAgree(kv.TxMap(), td, before)
    requires op.IndexAdd? ==> pk !in before && after == before[pk := cols]
    requires op.IndexDel? ==> pk in before && before[pk] == cols && after == before - {pk}
    modifies kv`s, tx`root, tx.free`state, tx.free`g, tx.pages
    ensures r.Done? || r.Thrown? || r.Crashed?
    ensures !r.Crashed? ==> kv.Valid() && kv.Running(tx)
    ensures |td.indexes| == |td.indexPrefixes|
    ensures r.Thrown? <==> op.IndexAdd? && !IndexKeysFit(td, pk + cols)
    ensures r.Crashed? <==> op.IndexDel? && !ChainFits(old(kv.TxShape()), IndexKeys(td, pk + cols))
    ensures ChainShort(old(kv.TxMap()), IndexKeys(td, pk + cols)) ==> !r.Crashed?
    ensures r.Done? ==> IndexesAgree(kv.TxMap(), td, after)
    ensures r.Done? ==> SameUnder(old(kv.TxMap()), kv.TxMap(), td.prefix) && OthersSame(old(kv.TxMap()), kv.TxMap(), td)
  {
    hide KV.Valid, KV.Running, KV.TxMap, HasPrefix, IndexAgrees, SameUnder, OthersSame, RowsOk, TableOk, Shows, IndexKey, Project,
      Between, RowOk, Encode, KeyInLimit, KV.TxShape, ChainFits, ChainShort, PrunedRoot, RootDeleteFits, GrownRoot, NextNotLonger, IndexKeys;
    TableSizes(td);
    ghost var keys := IndexKeys(td, pk + cols);
    assert keys[0..] == keys;
    BeginBetween(kv.TxMap(), td, before, after);
    for i := 0 to |td.indexes|
      invariant kv.Valid() && kv.Running(tx)
      invariant |td.indexes| == |td.indexPrefixes| && Between(kv.TxMap(), td, i, before, after)
      invariant SameUnder(old(kv.TxMap()), kv.TxMap(), td.prefix) && OthersSame(old(kv.TxMap()), kv.TxMap(), td)
      invariant op.IndexAdd? ==> forall j: nat :: j < i ==> KeyInLimit(IndexKey(td, j, pk + cols))
      invariant op.IndexDel? ==> (ChainFits(old(kv.TxShape()), keys) <==> ChainFits(kv.TxShape(), keys[i..]))
      invariant op.IndexDel? ==> (ChainShort(old(kv.TxMap()), keys) ==> ChainShort(kv.TxMap(), keys[i..]))
    {
      IndexKeyAt(td, pk + cols, i);
      ghost var m := kv.TxMap();
      var vs := IndexValues(td, rec, i, pk + cols);
      IndexKeyParts(td, i, pk + cols);
      var code := EncodeValues(vs);
      var key := PrefixCode(td.indexPrefixes[i]) + code.value;
      var done := false;
      match op {
        case IndexAdd =>
          AddOne(m, td, i, before, after, pk, cols, key);
          var u := kv.Update(tx, key, [], InsertOnly);
          if u.Thrown? {
            assert !KeyInLimit(IndexKey(td, i, pk + cols));
            return Outcome.Thrown;
          }
          done := u.Updated?;
        case IndexDel =>
          DelOne(m, td, i, before, after, pk, cols, key);
          kv.MapKeysInLimit(tx);
          NextInChain(kv, tx, keys, i);
          var d := kv.Del(tx, key);
          if d.Aborted? {
            return Crashed;
          }
          done := d.Unbound?;
      }
      assert done;
      SameUnderChain(old(kv.TxMap()), m, kv.TxMap(), td.prefix);
      OthersChain(old(kv.TxMap()), m, kv.TxMap(), td);
    }
    ChainEnd(kv.TxShape(), keys);
    EndBetween(kv.TxMap(), td, before, after);
    r := Done;
  }

  lemma IndexKeyAt(td: TableDef, row: Row, i: nat)
    requires i < |td.indexes| == |td.indexPrefixes|
    ensures IndexKeys(td, row)[i] == IndexKey(td, i, row)
  {
  }

  /** The next deletion fits if the chain does, and the rest of the chain is about what it leaves. */
  lemma NextInChain(kv: KV, tx: KVTX, keys: seq<Key>, i: nat)
    requires kv.Running(tx) && i < |keys|
    ensures ChainFits(kv.TxShape(), keys[i..]) <==>
            RootDeleteFits(kv.TxShape(), keys[i]) && ChainFits(PrunedRoot(kv.TxShape(), keys[i]), keys[i + 1..])
    ensures ChainShort(kv.TxMap(), keys[i..]) ==> ChainShort(kv.TxMap() - {keys[i]}, keys[i + 1..]) && RootDeleteFits(kv.TxShape(), keys[i])
  {
    hide KV.Running, KV.TxMap, KV.TxShape, RootDeleteFits, PrunedRoot, NextNotLonger;
    assert keys[i..][0] == keys[i] && keys[i..][1..] == keys[i + 1..];
    if ChainShort(kv.TxMap(), keys[i..]) {
      kv.ShortNextFits(tx, keys[i]);
    }
  }

  lemma ChainEnd(shape: Root, keys: seq<Key>)
    ensures ChainFits(shape, keys[|keys|..])
  {
  }

  lemma BeginBetween(m: map<Key, Key>, td: TableDef, before: Rows, after: Rows)
    requires TableOk(td) && IndexesAgree(m, td, before)
    ensures |td.indexes| == |td.indexPrefixes| && Between(m, td, 0, before, after)
    ensures SameUnder(m, m, td.prefix) && OthersSame(m, m, td)
  {
  }

  lemma EndBetween(m: map<Key, Key>, td: TableDef, before: Rows, after: Rows)
    requires |td.indexes| == |td.indexPrefixes| && Between(m, td, |td.indexes|, before, after)
    ensures IndexesAgree(m, td, after)
  {
  }

  lemma AddOne(m: map<Key, Key>, td: TableDef, i: nat, before: Rows, after: Rows, pk: seq<Value>, cols: seq<Value>, key: Key)
    requires TableOk(td) && RowsOk(td, before) && RowsOk(td, after) && i < |td.indexes| && Between(m, td, i, before, after)
    requires pk !in before && |pk| == td.pkeys && RowOk(td, pk + cols) && after == before[pk := cols]
    requires key == IndexKey(td, i, pk + cols)
    ensures key !in m
    ensures Between(m[key := []], td, i + 1, before, after)
    ensures SameUnder(m, m[key := []], td.prefix) && OthersSame(m, m[key := []], td)
  {
    hide HasPrefix, IndexAgrees, SameUnder, OthersSame, RowsOk, TableOk, IndexKey, RowOk;
    IndexKeyParts(td, i, pk + cols);
    IndexKeyAdded(m, td, i, before, pk, cols);
    BetweenStep(m, m[key := []], td, i, before, after, key);
  }

  lemma DelOne(m: map<Key, Key>, td: TableDef, i: nat, before: Rows, after: Rows, pk: seq<Value>, cols: seq<Value>, key: Key)
    requires TableOk(td) && RowsOk(td, before) && RowsOk(td, after) && i < |td.indexes| && Between(m, td, i, before, after)
    requires pk in before && before[pk] == cols && RowOk(td, pk + cols) && after == before - {pk}
    requires key == IndexKey(td, i, pk + cols)
    ensures key in m
    ensures Between(m - {key}, td, i + 1, before, after)
    ensures SameUnder(m, m - {key}, td.prefix) && OthersSame(m, m - {key}, td)
  {
    hide HasPrefix, IndexAgrees, SameUnder, OthersSame, RowsOk, TableOk, IndexKey, RowOk;
    IndexKeyParts(td, i, pk + cols);
    IndexKeyRemoved(m, td, i, before, pk);
    BetweenStep(m, m - {key}, td, i, before, after, key);
  }

  // ------------------------------------------------------------ rows

  /** decode_row; None stands for the exception on bytes that are not a row. */
  method DecodeRow(td: TableDef, key: Key, val: Key) returns (r: Option<Record>)
    requires TableOk(td)
    ensures forall pk, cols | RowOk(td, pk + cols) && |pk| == td.pkeys && Storable(pk) && Storable(cols) ::
              key == EncodeKey(td.prefix, pk) && val == Encode(cols) ==> r == Some(Record(td.cols, pk + cols))
  {
    hide RowOk, Types, Encode, EncodeKey, DecodeAll;
    forall pk: seq<Value>, cols: seq<Value> | RowOk(td, pk + cols) && |pk| == td.pkeys && Storable(pk) && Storable(cols)
      ensures key == EncodeKey(td.prefix, pk) && val == Encode(cols) ==>
                |key| >= PREFIX_SIZE && DecodeAll(td.types[..td.pkeys], key[PREFIX_SIZE..]) == Some(pk)
                && DecodeAll(td.types[td.pkeys..], val) == Some(cols)
    {
      RowStorable(td, pk + cols);
      assert (pk + cols)[..td.pkeys] == pk && (pk + cols)[td.pkeys..] == cols;
      DecodeKeyOfEncodeKey(td.prefix, pk);
      DecodeEncode(cols);
    }
    var pk := DecodeKey(key, td.types[..td.pkeys]);
    var cols := DecodeValues(val, td.types[td.pkeys..]);
    if pk.None? || cols.None? {
      return None;
    }
    r := Some(Record(td.cols, pk.value + cols.value));
  }

  lemma DecodedShows(td: TableDef, row: Row)
    requires TableOk(td) && |row| == |td.cols|
    ensures Shows(td, Record(td.cols, row), row)
  {
  }

  lemma SuppliedShows(td: TableDef, rec: Record)
    requires TableOk(td) && |rec.cols| == |rec.vals| && Supplies(td, rec, |td.cols|)
    ensures Shows(td, rec, Ordered(td, rec, |td.cols|))
  {
    var row := Ordered(td, rec, |td.cols|);
    forall c | c in td.cols
      ensures Field(rec, c) == Some(row[ColIndex(td.cols, c)])
    {
      var k := ColIndex(td.cols, c);
      assert td.cols[k] == c && Field(rec, td.cols[k]).Some?;
    }
  }

  /** What writing a row's own key does, before its indexes are touched. */
  lemma RowUpdateFacts(m: map<Key, Key>, td: TableDef, rows: Rows, row: Row)
    requires Agrees(m, td, rows) && RowOk(td, row)
    ensures |row| == |td.cols| && Storable(row[..td.pkeys]) && Storable(row[td.pkeys..]) && row[..td.pkeys] + row[td.pkeys..] == row
    ensures RowsOk(td, rows) && IndexesAgree(m, td, rows)
    ensures var pk, cols := row[..td.pkeys], row[td.pkeys..];
            var key := RowKey(td, pk);
            var n := m[key := Encode(cols)];
            && key == EncodeKey(td.prefix, pk)
            && (key in m <==> pk in rows) && (pk in rows ==> Storable(rows[pk]) && m[key] == Encode(rows[pk]))
            && RowsOk(td, rows[pk := cols]) && RowsOk(td, rows - {pk}) && rows[pk := cols] == (rows - {pk})[pk := cols]
            && RowsAgree(n, td, rows[pk := cols]) && IndexesAgree(n, td, rows) && OthersSame(m, n, td)
  {
    hide Encode, HasPrefix, SameUnder, OthersSame, EncodeKey, RowsOk, RowsAgree, IndexesAgree, TableOk, RowOk, Types, RowKey, SameBut;
    TableSizes(td);
    RowParts(td, row);
    RowTypes(td, row);
    FewerRowsOk(td, rows, row[..td.pkeys]);
    var pk, cols := row[..td.pkeys], row[td.pkeys..];
    var key := RowKey(td, pk);
    RowPresence(m, td, rows, pk);
    RowWritten(m, td, rows, row);
    var n := m[key := Encode(cols)];
    SetIsOneKey(m, key, Encode(cols));
    OthersAfterOneKey(m, n, key, td);
    IndexesFrame(m, n, td, rows, key);
  }

  lemma SetIsOneKey(m: map<Key, Key>, key: Key, val: Key)
    ensures SameBut(m, m[key := val], key) && SameBut(m, m - {key}, key)
  {
  }

  lemma RowTypes(td: TableDef, row: Row)
    requires TableOk(td) && RowOk(td, row)
    ensures |row| == |td.cols| && td.pkeys <= |td.types| && Types(row[..td.pkeys]) == td.types[..td.pkeys]
  {
    RowStorable(td, row);
  }

  lemma FewerRowsOk(td: TableDef, rows: Rows, pk: seq<Value>)
    requires RowsOk(td, rows)
    ensures RowsOk(td, rows - {pk})
  {
  }

  lemma RowPresence(m: map<Key, Key>, td: TableDef, rows: Rows, pk: seq<Value>)
    requires Agrees(m, td, rows) && Storable(pk) && Types(pk) == td.types[..td.pkeys]
    ensures RowKey(td, pk) in m <==> pk in rows
    ensures pk in rows ==> Storable(rows[pk]) && m[RowKey(td, pk)] == Encode(rows[pk])
  {
    hide Encode, IndexAgrees, TableOk;
    if RowKey(td, pk) in m {
      EncodedHasPrefix(td.prefix, pk);
      var q :| q in rows && RowKey(td, q) == RowKey(td, pk);
      RowKeysDistinct(td, rows, pk, q);
    }
  }

  lemma IndexesFrame(m: map<Key, Key>, n: map<Key, Key>, td: TableDef, rows: Rows, key: Key)
    requires TableOk(td) && RowsOk(td, rows) && IndexesAgree(m, td, rows) && HasPrefix(key, td.prefix) && SameBut(m, n, key)
    ensures IndexesAgree(n, td, rows)
  {
    hide HasPrefix, SameUnder, IndexAgrees, RowsOk, SameBut;
    forall i: nat | i < |td.indexes|
      ensures IndexAgrees(n, td, i, rows)
    {
      OneKeyChanged(m, n, key, td.prefix, td.indexPrefixes[i]);
      IndexFrame(m, n, td, i, rows);
    }
  }

  /** Both parts again agree, once the indexes have caught up. */
  lemma AgreesAgain(m: map<Key, Key>, n: map<Key, Key>, td: TableDef, rows: Rows)
    requires TableOk(td) && RowsOk(td, rows) && RowsAgree(m, td, rows) && SameUnder(m, n, td.prefix) && IndexesAgree(n, td, rows)
    ensures Agrees(n, td, rows)
  {
    hide RowsAgree, SameUnder, IndexesAgree;
    RowsFrame(m, n, td, rows);
  }

  /**
   * Insert or replace a row per mode and keep every index in step: afterwards the table's keys are exactly those of the
   * rows with this one bound, and no other key has changed.
   */
  method DbUpdate(kv: KV, tx: KVTX, td: TableDef, rec: Record, mode: UpdateMode, ghost rows: Rows) returns (r: Outcome)
    requires kv.Valid() && kv.Running(tx) && TableOk(td) && |rec.cols| == |rec.vals| && Agrees(kv.TxMap(), td, rows)
    modifies kv`s, tx`root, tx.free`state, tx.free`g, tx.pages
    ensures !r.Crashed? ==> kv.Valid() && kv.Running(tx)
    ensures td.pkeys <= |td.cols| == |td.types| && |td.indexes| == |td.indexPrefixes|
    ensures r.Malformed? <==> !Supplies(td, rec, |td.cols|)
    ensures (exists c :: c in rec.cols && c !in td.cols) || (exists c :: c in td.cols && c !in rec.cols) ==> r.Malformed?
    ensures r.Malformed? || r.Refused? ==> kv.TxMap() == old(kv.TxMap())
    ensures !r.Malformed? ==>
              var row := Ordered(td, rec, |td.cols|);
              && (r.Done? ==> Agrees(kv.TxMap(), td, rows[row[..td.pkeys] := row[td.pkeys..]]))
              && (r.Done? ==> OthersSame(old(kv.TxMap()), kv.TxMap(), td))
              && r == UpdateOutcome(td, rows, old(kv.TxShape()), row, mode)
              && (OldKeysShort(old(kv.TxMap()), td, rows, row) ==> !r.Crashed?)
    ensures !r.Malformed? ==>
              var row := Ordered(td, rec, |td.cols|);
              && (r.Refused? ==> (mode.InsertOnly? && row[..td.pkeys] in rows) || (mode.UpdateOnly? && row[..td.pkeys] !in rows))
              && (r.Done? || r.Crashed? ==> !(mode.InsertOnly? && row[..td.pkeys] in rows) && !(mode.UpdateOnly? && row[..td.pkeys] !in rows))
  {
    hide KV.Valid, KV.Running, KV.TxMap, HasPrefix, Agrees, RowsAgree, IndexesAgree, SameUnder, OthersSame, RowsOk, TableOk, Shows,
      RowKey, IndexKey, RowOk, Encode, KeyInLimit, Supplies, KV.TxShape, ChainFits, ChainShort, IndexKeys, IndexKeysFit, GrownRoot;
    TableSizes(td);
    NotItsColumns(td, rec);
    var values := CheckRecord(td, rec, |td.cols|);
    if values.None? {
      return Malformed;
    }
    ghost var m := kv.TxMap();
    ghost var row := values.value;
    var pk, cols := values.value[..td.pkeys], values.value[td.pkeys..];
    StorableParts(row, td.pkeys);
    var code := EncodeValues(pk);
    var val := EncodeValues(cols);
    if code.None? || val.None? {
      return Outcome.Thrown;
    }
    var key := PrefixCode(td.prefix) + code.value;
    OrderedRowOk(td, rec);
    RowUpdateFacts(m, td, rows, row);
    var u := kv.Update(tx, key, val.value, mode);
    if u.Thrown? {
      return Outcome.Thrown;
    }
    if u.Refused? {
      return Outcome.Refused;
    }
    ghost var n, after := kv.TxMap(), rows[pk := cols];
    if td.indexes == [] {
      NoKeys(td, kv.TxShape(), row);
      if pk in rows {
        NoKeys(td, kv.TxShape(), pk + rows[pk]);
      }
      NoIndexes(n, td, after);
      return Done;
    }
    r := SyncIndexes(kv, tx, td, rec, key, u.previous, rows, pk, cols);
    if r.Done? {
      AgreesAgain(n, kv.TxMap(), td, after);
      OthersChain(m, n, kv.TxMap(), td);
    }
  }

  lemma NotItsColumns(td: TableDef, rec: Record)
    requires |td.cols| == |td.types| && |rec.cols| == |rec.vals|
    ensures (exists c :: c in rec.cols && c !in td.cols) || (exists c :: c in td.cols && c !in rec.cols) ==> !Supplies(td, rec, |td.cols|)
  {
    assert td.cols[..|td.cols|] == td.cols;
    NotSuppliedIf(td, rec, |td.cols|);
  }

  lemma StorableParts(row: Row, n: nat)
    requires n <= |row|
    ensures Storable(row) <==> Storable(row[..n]) && Storable(row[n..])
  {
    assert row == row[..n] + row[n..];
  }

  lemma TableSizes(td: TableDef)
    requires TableOk(td)
    ensures td.pkeys <= |td.cols| == |td.types| && |td.indexes| == |td.indexPrefixes|
  {
  }

  lemma NoKeys(td: TableDef, shape: Root, row: Row)
    requires |td.indexes| == |td.indexPrefixes| == 0
    ensures IndexKeys(td, row) == [] && ChainFits(shape, IndexKeys(td, row)) && IndexKeysFit(td, row)
  {
  }

  lemma NoIndexes(m: map<Key, Key>, td: TableDef, rows: Rows)
    requires TableOk(td) && RowsOk(td, rows) && RowsAgree(m, td, rows) && td.indexes == []
    ensures Agrees(m, td, rows)
  {
  }

  /** Replace the old row's index keys, if there was one, by the new row's. */
  method SyncIndexes(kv: KV, tx: KVTX, td: TableDef, rec: Record, key: Key, previous: Lookup, ghost rows: Rows,
                     ghost pk: seq<Value>, ghost cols: seq<Value>) returns (r: Outcome)
    requires kv.Valid() && kv.Running(tx) && TableOk(td) && RowsOk(td, rows) && IndexesAgree(kv.TxMap(), td, rows)
    requires |pk| == td.pkeys && RowOk(td, pk + cols) && Storable(pk)
    requires |rec.cols| == |rec.vals| && |td.cols| == |td.types| && Supplies(td, rec, |td.cols|) && pk + cols == Ordered(td, rec, |td.cols|)
    requires key == EncodeKey(td.prefix, pk)
    requires previous == if pk in rows && Storable(rows[pk]) then Found(Encode(rows[pk])) else Missing
    requires pk in rows ==> Storable(rows[pk])
    requires RowsOk(td, rows - {pk}) && RowsOk(td, rows[pk := cols])
    modifies kv`s, tx`root, tx.free`state, tx.free`g, tx.pages
    ensures r.Done? || r.Thrown? || r.Crashed?
    ensures !r.Crashed? ==> kv.Valid() && kv.Running(tx)
    ensures r.Done? ==> IndexesAgree(kv.TxMap(), td, rows[pk := cols])
    ensures r.Done? ==> SameUnder(old(kv.TxMap()), kv.TxMap(), td.prefix) && OthersSame(old(kv.TxMap()), kv.TxMap(), td)
    ensures |td.indexes| == |td.indexPrefixes|
    ensures r.Crashed? <==> pk in rows && !ChainFits(old(kv.TxShape()), IndexKeys(td, pk + rows[pk]))
    ensures r.Thrown? <==> !r.Crashed? && !IndexKeysFit(td, pk + cols)
    ensures pk in rows && ChainShort(old(kv.TxMap()), IndexKeys(td, pk + rows[pk])) ==> !r.Crashed?
  {
    hide KV.Valid, KV.Running, KV.TxMap, HasPrefix, IndexesAgree, SameUnder, OthersSame, RowsOk, TableOk, Shows, IndexKey, RowOk, Encode,
      KeyInLimit, Supplies, KV.TxShape, ChainFits, ChainShort, IndexKeys, IndexKeysFit;
    TableSizes(td);
    ghost var without := rows - {pk};
    ghost var m := kv.TxMap();
    SameSelf(m, td);
    if previous.Found? {
      var stored := DecodeRow(td, key, previous.val);
      OldRow(td, rows, pk);
      assert stored == Some(Record(td.cols, pk + rows[pk]));
      r := ApplyIndexOp(kv, tx, td, stored.value, IndexDel, rows, without, pk, rows[pk]);
      if !r.Done? {
        return;
      }
    } else {
      assert without == rows;
    }
    ghost var n := kv.TxMap();
    SuppliedShows(td, rec);
    assert rows[pk := cols] == without[pk := cols];
    r := ApplyIndexOp(kv, tx, td, rec, IndexAdd, without, rows[pk := cols], pk, cols);
    if r.Done? {
      SameUnderChain(m, n, kv.TxMap(), td.prefix);
      OthersChain(m, n, kv.TxMap(), td);
    }
  }

  lemma SameSelf(m: map<Key, Key>, td: TableDef)
    ensures SameUnder(m, m, td.prefix) && OthersSame(m, m, td)
  {
  }

  lemma OldRow(td: TableDef, rows: Rows, pk: seq<Value>)
    requires TableOk(td) && RowsOk(td, rows) && pk in rows
    ensures |pk| == td.pkeys && RowOk(td, pk + rows[pk]) && |pk + rows[pk]| == |td.cols|
    ensures Storable(pk) && Storable(rows[pk]) && Shows(td, Record(td.cols, pk + rows[pk]), pk + rows[pk])
  {
    RowStorable(td, pk + rows[pk]);
    assert (pk + rows[pk])[..td.pkeys] == pk && (pk + rows[pk])[td.pkeys..] == rows[pk];
    DecodedShows(td, pk + rows[pk]);
  }

  /** Delete a row by its primary key together with its index keys. */
  method DbDelete(kv: KV, tx: KVTX, td: TableDef, rec: Record, ghost rows: Rows) returns (r: Outcome)
    requires kv.Valid() && kv.Running(tx) && TableOk(td) && |rec.cols| == |rec.vals| && Agrees(kv.TxMap(), td, rows)
    modifies kv`s, tx`root, tx.free`state, tx.free`g, tx.pages
    ensures !r.Crashed? ==> kv.Valid() && kv.Running(tx)
    ensures td.pkeys <= |td.cols| == |td.types| && (r.Malformed? <==> !Supplies(td, rec, td.pkeys))
    ensures r.Malformed? || r.Refused? || r.Thrown? ==> kv.TxMap() == old(kv.TxMap())
    ensures !r.Malformed? ==>
              var pk := Ordered(td, rec, td.pkeys);
              && (r.Done? ==> pk in rows)
              && (r.Done? || r.Refused? ==> Agrees(kv.TxMap(), td, rows - {pk}))
              && (r.Done? ==> OthersSame(old(kv.TxMap()), kv.TxMap(), td))
              && |pk| == td.pkeys && |td.indexes| == |td.indexPrefixes|
              && r == DeleteOutcome(td, rows, old(kv.TxShape()), pk)
              && (pk in rows && ChainShort(old(kv.TxMap()), RowKeys(td, pk + rows[pk])) ==> !r.Crashed?)
              && (r.Refused? <==> Storable(pk) && KeyInLimit(RowKey(td, pk)) && pk !in rows)
              && (r.Thrown? <==> !Storable(pk) || !KeyInLimit(RowKey(td, pk)))
              && (r.Crashed? ==> pk in rows && !ChainFits(old(kv.TxShape()), RowKeys(td, pk + rows[pk])))
              && (r.Done? ==> ChainFits(old(kv.TxShape()), RowKeys(td, pk + rows[pk])))
  {
    hide KV.Valid, KV.Running, KV.TxMap, HasPrefix, Agrees, RowsAgree, IndexesAgree, SameUnder, OthersSame, RowsOk, TableOk, Shows,
      RowKey, IndexKey, RowOk, Encode, KeyInLimit, Supplies, KV.TxShape, ChainFits, ChainShort, IndexKeys, RowKeys, RootDeleteFits, PrunedRoot, NextNotLonger;
    TableSizes(td);
    var values := CheckRecord(td, rec, td.pkeys);
    if values.None? {
      return Malformed;
    }
    var pk := values.value;
    ghost var m := kv.TxMap();
    var code := EncodeValues(pk);
    if code.None? {
      return Outcome.Thrown;
    }
    RowDeleteFacts(m, td, rows, rec);
    var key := PrefixCode(td.prefix) + code.value;
    if pk in rows {
      RowKeyFirst(td, pk, rows[pk]);
      NextInChain(kv, tx, RowKeys(td, pk + rows[pk]), 0);
      assert RowKeys(td, pk + rows[pk])[0..] == RowKeys(td, pk + rows[pk]);
    }
    var d, previous := kv.DelReporting(tx, key);
    match d {
      case Rejected => return Outcome.Thrown;
      case Absent =>
        assert rows - {pk} == rows;
        return Outcome.Refused;
      case Aborted => return Crashed;
      case Unbound =>
    }
    ghost var n, after := kv.TxMap(), rows - {pk};
    if td.indexes == [] {
      NoKeys(td, kv.TxShape(), pk + rows[pk]);
      NoIndexes(n, td, after);
      return Done;
    }
    var stored := DecodeRow(td, key, previous.val);
    OldRow(td, rows, pk);
    assert stored == Some(Record(td.cols, pk + rows[pk]));
    r := ApplyIndexOp(kv, tx, td, stored.value, IndexDel, rows, after, pk, rows[pk]);
    if r.Done? {
      AgreesAgain(n, kv.TxMap(), td, after);
      OthersChain(m, n, kv.TxMap(), td);
    }
  }

  lemma RowKeyFirst(td: TableDef, pk: seq<Value>, cols: seq<Value>)
    requires |td.indexes| == |td.indexPrefixes| && td.pkeys == |pk|
    ensures RowKeys(td, pk + cols)[0] == RowKey(td, pk) && RowKeys(td, pk + cols)[1..] == IndexKeys(td, pk + cols)
  {
    assert (pk + cols)[..td.pkeys] == pk;
  }

  lemma RowDeleteFacts(m: map<Key, Key>, td: TableDef, rows: Rows, rec: Record)
    requires Agrees(m, td, rows) && td.pkeys <= |td.cols| == |td.types| && |rec.cols| == |rec.vals| && Supplies(td, rec, td.pkeys)
    requires Storable(Ordered(td, rec, td.pkeys))
    ensures RowsOk(td, rows) && IndexesAgree(m, td, rows)
    ensures var pk := Ordered(td, rec, td.pkeys);
            var key := RowKey(td, pk);
            && |pk| == td.pkeys && Storable(pk) && key == EncodeKey(td.prefix, pk)
            && (key in m <==> pk in rows) && (pk in rows ==> Storable(rows[pk]) && m[key] == Encode(rows[pk]))
            && (pk in rows ==>
                  && RowsOk(td, rows - {pk}) && RowsAgree(m - {key}, td, rows - {pk})
                  && IndexesAgree(m - {key}, td, rows) && OthersSame(m, m - {key}, td))
  {
    hide Encode, HasPrefix, SameUnder, OthersSame, EncodeKey, IndexAgrees, Supplies, TableOk, RowsOk, RowsAgree, IndexesAgree;
    TableSizes(td);
    OrderedByName(td, rec, td.pkeys);
    var pk := Ordered(td, rec, td.pkeys);
    RowPresence(m, td, rows, pk);
    EncodedHasPrefix(td.prefix, pk);
    if pk in rows {
      var key := RowKey(td, pk);
      RowErased(m, td, rows, pk);
      OthersAfterOneKey(m, m - {key}, key, td);
      IndexesFrame(m, m - {key}, td, rows, key);
    }
  }
}

/** Table definitions, records and the columns of indexes (src/catalog/catalog.cpp, src/access/row_codec.cpp). */
module Tables {
  import opened Bytes
  import opened OrderPreserving
  import opened RowCodec

  /** A std::string, byte by byte. */
  type Name = Key

  /** The first pkeys columns are the primary key; indexes name columns, the missing primary key ones appended. */
  datatype TableDef = TableDef(name: Name, cols: seq<Name>, types: seq<Type>, pkeys: nat, indexes: seq<seq<Name>>,
                               prefix: nat, indexPrefixes: seq<nat>)

  /** vals[i] belongs to cols[i]; columns may be missing and come in any order. */
  datatype Record = Record(cols: seq<Name>, vals: seq<Value>)

  type Row = seq<Value>

  /** The first position of col, or -1. */
  function ColIndex(cols: seq<Name>, col: Name): (i: int)
    ensures -1 <= i < |cols|
    ensures i >= 0 ==> cols[i] == col && col !in cols[..i]
    ensures i < 0 <==> col !in cols
  {
    if cols == [] then -1
    else if cols[0] == col then 0
    else
      var i := ColIndex(cols[1..], col);
      if i < 0 then -1 else assert cols[..i + 1] == [cols[0]] + cols[1..][..i]; i + 1
  }

  predicate Distinct(cols: seq<Name>)
  {
    forall i, j :: 0 <= i < j < |cols| ==> cols[i] != cols[j]
  }

  /** Does long start with short? */
  predicate IsPrefix(long: seq<Name>, short: seq<Name>)
  {
    |short| <= |long| && long[..|short|] == short
  }

  function Pk(td: TableDef): seq<Name>
    requires td.pkeys <= |td.cols|
  {
    td.cols[..td.pkeys]
  }

  // ------------------------------------------------------------ index columns

  /** cols, and behind them each column of pk that is not there yet. */
  function Completed(cols: seq<Name>, pk: seq<Name>): seq<Name>
    decreases pk
  {
    if pk == [] then cols else Completed(if pk[0] in cols then cols else cols + [pk[0]], pk[1..])
  }

  /** What check_index_keys asks of an index as declared. */
  predicate Indexable(td: TableDef, index: seq<Name>)
    requires td.pkeys <= |td.cols|
  {
    && index != [] && (forall c :: c in index ==> c in td.cols) && Distinct(index)
    && |Completed(index, Pk(td))| < |td.cols|
  }

  lemma {:induction false} CompletedFacts(cols: seq<Name>, pk: seq<Name>)
    ensures cols <= Completed(cols, pk)
    ensures forall c :: c in Completed(cols, pk) <==> c in cols || c in pk
    ensures Distinct(cols) ==> Distinct(Completed(cols, pk))
    decreases pk
  {
    if pk != [] {
      CompletedFacts(if pk[0] in cols then cols else cols + [pk[0]], pk[1..]);
      assert forall c :: c in pk <==> c == pk[0] || c in pk[1..];
    }
  }

  lemma {:induction false} CompletedStep(cols: seq<Name>, pk: seq<Name>, i: nat)
    requires i < |pk|
    ensures Completed(cols, pk[..i + 1]) ==
            (var c := Completed(cols, pk[..i]); if pk[i] in c then c else c + [pk[i]])
    decreases i
  {
    if i == 0 {
      assert pk[..1][1..] == [] && pk[..0] == [];
    } else {
      assert pk[..i + 1][1..] == pk[1..][..i] && pk[..i][1..] == pk[1..][..i - 1];
      CompletedStep(if pk[0] in cols then cols else cols + [pk[0]], pk[1..], i - 1);
    }
  }

  /**
   * Normalize an index: its columns, then the primary key columns it lacks. None is the source's error for an empty
   * index, an unknown or repeated column, or one that would cover the whole table.
   */
  method CheckIndexKeys(td: TableDef, index: seq<Name>) returns (r: Option<seq<Name>>)
    requires td.pkeys <= |td.cols|
    ensures r.Some? <==> Indexable(td, index)
    ensures r.None? <==>
              || index == []
              || (exists c :: c in index && c !in td.cols)
              || (exists i, j :: 0 <= i < j < |index| && index[i] == index[j])
              || |set c | c in index + td.cols[..td.pkeys]| >= |td.cols|
    ensures r.Some? ==> r.value == Completed(index, Pk(td)) && index <= r.value && IndexOk(td, r.value)
    ensures r.Some? ==> |r.value| < |td.cols| && forall c :: c in r.value <==> c in index || c in td.cols[..td.pkeys]
  {
    RefusedIf(td, index);
    if index == [] {
      return None;
    }
    var out: seq<Name> := [];
    for i := 0 to |index|
      invariant out == index[..i] && Distinct(out) && forall c :: c in out ==> c in td.cols
    {
      if ColIndex(td.cols, index[i]) < 0 {
        return None;
      }
      if index[i] in out {
        Repeated(index, i);
        return None;
      }
      out := out + [index[i]];
      assert index[..i + 1] == index[..i] + [index[i]];
    }
    assert out == index;
    for i := 0 to td.pkeys
      invariant out == Completed(index, Pk(td)[..i])
    {
      CompletedStep(index, Pk(td), i);
      if td.cols[i] !in out {
        out := out + [td.cols[i]];
      }
    }
    assert Pk(td)[..td.pkeys] == Pk(td);
    CompletedFacts(index, Pk(td));
    r := if |out| >= |td.cols| then None else Some(out);
  }

  /** The four reasons to refuse an index. The last counts the columns of index and primary key together. */
  predicate IndexRefused(td: TableDef, index: seq<Name>)
    requires td.pkeys <= |td.cols|
  {
    || index == []
    || (exists c :: c in index && c !in td.cols)
    || (exists i, j :: 0 <= i < j < |index| && index[i] == index[j])
    || |set c | c in index + td.cols[..td.pkeys]| >= |td.cols|
  }

  lemma RefusedIf(td: TableDef, index: seq<Name>)
    requires td.pkeys <= |td.cols|
    ensures IndexRefused(td, index) <==> !Indexable(td, index)
  {
    if index != [] && (forall c :: c in index ==> c in td.cols) && Distinct(index) {
      CompletedFacts(index, Pk(td));
      DistinctCount(Completed(index, Pk(td)));
      assert (set c | c in Completed(index, Pk(td))) == (set c | c in index + td.cols[..td.pkeys]);
    }
  }

  lemma {:induction false} DistinctCount(cols: seq<Name>)
    requires Distinct(cols)
    ensures |set c | c in cols| == |cols|
  {
    if cols != [] {
      var rest := cols[1..];
      assert forall i, j :: 0 <= i < j < |rest| ==> rest[i] == cols[i + 1] && rest[j] == cols[j + 1];
      DistinctCount(rest);
      assert cols[0] !in rest;
      assert (set c | c in cols) == {cols[0]} + (set c | c in rest);
    }
  }

  lemma Repeated(index: seq<Name>, i: nat)
    requires i < |index| && index[i] in index[..i]
    ensures !Distinct(index)
  {
    var j :| 0 <= j < i && index[..i][j] == index[i];
    assert index[j] == index[i];
  }

  // ------------------------------------------------------------ well-formed tables

  predicate IndexOk(td: TableDef, index: seq<Name>)
    requires td.pkeys <= |td.cols|
  {
    && (forall c :: c in index ==> c in td.cols) && Distinct(index)
    && (forall c :: c in Pk(td) ==> c in index)
  }

  /** What table_new establishes. Columns may repeat, and may have type ERROR. */
  predicate TableOk(td: TableDef)
  {
    && |td.cols| == |td.types| && 0 < td.pkeys <= |td.cols|
    && |td.indexPrefixes| == |td.indexes|
    && (forall i :: 0 <= i < |td.indexes| ==> IndexOk(td, td.indexes[i]))
    && td.prefix < PREFIX_LIMIT
    && (forall i :: 0 <= i < |td.indexPrefixes| ==> td.indexPrefixes[i] < PREFIX_LIMIT && td.indexPrefixes[i] != td.prefix)
    && (forall i, j :: 0 <= i < j < |td.indexPrefixes| ==> td.indexPrefixes[i] != td.indexPrefixes[j])
  }

  /** check_index_keys makes every index fit for use: distinct columns, among them the primary key's. */
  lemma NormalizedIndexOk(td: TableDef, index: seq<Name>)
    requires td.pkeys <= |td.cols| && Indexable(td, index)
    ensures IndexOk(td, Completed(index, Pk(td)))
  {
    CompletedFacts(index, Pk(td));
  }

  // ------------------------------------------------------------ records and rows

  function Field(rec: Record, col: Name): Option<Value>
    requires |rec.cols| == |rec.vals|
  {
    var i := ColIndex(rec.cols, col);
    if i < 0 then None else Some(rec.vals[i])
  }

  /** rec supplies exactly the first n columns, in any order, each of its type. */
  predicate Supplies(td: TableDef, rec: Record, n: nat)
    requires n <= |td.cols| == |td.types| && |rec.cols| == |rec.vals|
  {
    && (forall i :: 0 <= i < n ==> Field(rec, td.cols[i]).Some? && Field(rec, td.cols[i]).value.Type() == td.types[i])
    && (forall c :: c in rec.cols ==> c in td.cols[..n])
  }

  /** The record's values in column order. */
  function Ordered(td: TableDef, rec: Record, n: nat): (vs: seq<Value>)
    requires n <= |td.cols| == |td.types| && |rec.cols| == |rec.vals| && Supplies(td, rec, n)
    ensures |vs| == n
  {
    seq(n, i requires 0 <= i < n => assert Field(rec, td.cols[i]).Some?; Field(rec, td.cols[i]).value)
  }

  /**
   * The three reasons to refuse a record: a column missing, a value of another type, a column the table does not have.
   * Else the values come in column order.
   */
  lemma NotSuppliedIf(td: TableDef, rec: Record, n: nat)
    requires n <= |td.cols| == |td.types| && |rec.cols| == |rec.vals|
    ensures !Supplies(td, rec, n) <==>
              || (exists c :: c in td.cols[..n] && c !in rec.cols)
              || (exists i :: 0 <= i < n && td.cols[i] in rec.cols && rec.vals[ColIndex(rec.cols, td.cols[i])].Type() != td.types[i])
              || (exists c :: c in rec.cols && c !in td.cols[..n])
    ensures Supplies(td, rec, n) ==>
              forall i :: 0 <= i < n ==> td.cols[i] in rec.cols && Ordered(td, rec, n)[i] == rec.vals[ColIndex(rec.cols, td.cols[i])]
  {
    assert forall i :: 0 <= i < n ==> td.cols[..n][i] == td.cols[i];
  }

  method CheckRecord(td: TableDef, rec: Record, n: nat) returns (r: Option<seq<Value>>)
    requires n <= |td.cols| == |td.types| && |rec.cols| == |rec.vals|
    ensures r.Some? <==> Supplies(td, rec, n)
    ensures r.Some? ==> r.value == Ordered(td, rec, n)
  {
    var out: seq<Value> := [];
    for i := 0 to n
      invariant |out| == i
      invariant forall j :: 0 <= j < i ==> Field(rec, td.cols[j]) == Some(out[j]) && out[j].Type() == td.types[j]
    {
      var v := Field(rec, td.cols[i]);
      if v.None? || v.value.Type() != td.types[i] {
        return None;
      }
      out := out + [v.value];
    }
    for i := 0 to |rec.cols|
      invariant forall j :: 0 <= j < i ==> rec.cols[j] in td.cols[..n]
    {
      if rec.cols[i] !in td.cols[..n] {
        return None;
      }
    }
    r := Some(out);
  }

  /** Columns of one name hold one value, the one found by that name. */
  predicate SameByName(cols: seq<Name>, vs: seq<Value>)
  {
    |vs| <= |cols| && forall i :: 0 <= i < |vs| ==> vs[i] == vs[ColIndex(cols, cols[i])]
  }

  /** A full row in column order that can be stored. A table with a column of type ERROR has none. */
  predicate RowOk(td: TableDef, row: Row)
  {
    Types(row) == td.types && Storable(row) && |row| == |td.cols| && SameByName(td.cols, row)
  }

  lemma RowStorable(td: TableDef, row: Row)
    requires TableOk(td) && RowOk(td, row)
    ensures |row| == |td.cols| && Storable(row) && Storable(row[..td.pkeys]) && Storable(row[td.pkeys..])
    ensures Types(row[..td.pkeys]) == td.types[..td.pkeys] && Types(row[td.pkeys..]) == td.types[td.pkeys..]
    ensures SameByName(td.cols, row[..td.pkeys])
  {
    forall i | 0 <= i < td.pkeys
      ensures ColIndex(td.cols, td.cols[i]) <= i
    {
    }
  }

  /** The values a record supplies agree by name. */
  lemma OrderedByName(td: TableDef, rec: Record, n: nat)
    requires n <= |td.cols| == |td.types| && |rec.cols| == |rec.vals| && Supplies(td, rec, n)
    ensures Types(Ordered(td, rec, n)) == td.types[..n] && SameByName(td.cols, Ordered(td, rec, n))
  {
    var vs := Ordered(td, rec, n);
    forall i | 0 <= i < n
      ensures ColIndex(td.cols, td.cols[i]) <= i && vs[i] == vs[ColIndex(td.cols, td.cols[i])] && vs[i].Type() == td.types[i]
    {
    }
  }

  lemma OrderedRowOk(td: TableDef, rec: Record)
    requires |td.cols| == |td.types| && |rec.cols| == |rec.vals| && Supplies(td, rec, |td.cols|)
    requires Storable(Ordered(td, rec, |td.cols|))
    ensures RowOk(td, Ordered(td, rec, |td.cols|))
  {
    OrderedByName(td, rec, |td.cols|);
    assert td.types[..|td.cols|] == td.types;
  }

  /** The values of these columns in a row. */
  function Project(td: TableDef, cols: seq<Name>, row: Row): (t: seq<Value>)
    requires |row| == |td.cols| && forall c :: c in cols ==> c in td.cols
    ensures |t| == |cols|
  {
    seq(|cols|, i requires 0 <= i < |cols| => row[ColIndex(td.cols, cols[i])])
  }

  function ColTypes(td: TableDef, cols: seq<Name>): (t: seq<Type>)
    requires |td.types| == |td.cols| && forall c :: c in cols ==> c in td.cols
    ensures |t| == |cols|
  {
    seq(|cols|, i requires 0 <= i < |cols| => td.types[ColIndex(td.cols, cols[i])])
  }

  lemma ProjectTypes(td: TableDef, cols: seq<Name>, row: Row)
    requires TableOk(td) && RowOk(td, row) && forall c :: c in cols ==> c in td.cols
    ensures |row| == |td.cols|
    ensures Types(Project(td, cols, row)) == ColTypes(td, cols) && Storable(Project(td, cols, row))
  {
    RowStorable(td, row);
    forall i | 0 <= i < |cols|
      ensures Project(td, cols, row)[i].Type() == ColTypes(td, cols)[i]
    {
      var k := ColIndex(td.cols, cols[i]);
      assert Types(row)[k] == td.types[k];
    }
  }

  lemma ProjectPk(td: TableDef, row: Row)
    requires TableOk(td) && |row| == |td.cols| && SameByName(td.cols, row)
    ensures forall c :: c in Pk(td) ==> c in td.cols
    ensures Project(td, Pk(td), row) == row[..td.pkeys]
  {
    forall i | 0 <= i < td.pkeys
      ensures row[ColIndex(td.cols, Pk(td)[i])] == row[i]
    {
    }
  }

  /** Projecting more columns keeps the earlier ones. */
  lemma ProjectPrefix(td: TableDef, cols: seq<Name>, row: Row, k: nat)
    requires |row| == |td.cols| && k <= |cols| && forall c :: c in cols ==> c in td.cols
    ensures forall c :: c in cols[..k] ==> c in td.cols
    ensures Project(td, cols[..k], row) == Project(td, cols, row)[..k]
  {
  }

  /** An index tuple tells which row it belongs to, since it holds the primary key. */
  lemma IndexTupleHasPk(td: TableDef, index: seq<Name>, a: Row, b: Row)
    requires TableOk(td) && IndexOk(td, index) && |a| == |b| == |td.cols| && SameByName(td.cols, a) && SameByName(td.cols, b)
    requires Project(td, index, a) == Project(td, index, b)
    ensures a[..td.pkeys] == b[..td.pkeys]
  {
    forall i | 0 <= i < td.pkeys
      ensures a[i] == b[i]
    {
      var c := Pk(td)[i];
      assert c in index;
      var j :| 0 <= j < |index| && index[j] == c;
      var k := ColIndex(td.cols, c);
      assert td.cols[k] == td.cols[i];
      assert Project(td, index, a)[j] == a[k] && Project(td, index, b)[j] == b[k];
    }
  }

  // ------------------------------------------------------------ choosing an index

  /** r is the tree picked for bounds on these columns, as find_index numbers them: -1 is the primary key, -2 none. */
  ghost predicate Chosen(td: TableDef, keys: seq<Name>, r: int)
    requires td.pkeys <= |td.cols|
  {
    if IsPrefix(Pk(td), keys) then r == -1
    else if forall i :: 0 <= i < |td.indexes| ==> !IsPrefix(td.indexes[i], keys) then r == -2
    else
      && 0 <= r < |td.indexes| && IsPrefix(td.indexes[r], keys)
      && (forall i :: 0 <= i < |td.indexes| && IsPrefix(td.indexes[i], keys) ==> |td.indexes[r]| <= |td.indexes[i]|)
      && (forall i :: 0 <= i < r && IsPrefix(td.indexes[i], keys) ==> |td.indexes[r]| < |td.indexes[i]|)
  }

  /** The primary key if it starts with keys, else the first of the shortest indexes that do. */
  method FindIndex(td: TableDef, keys: seq<Name>) returns (winner: int)
    requires td.pkeys <= |td.cols|
    ensures Chosen(td, keys, winner)
    ensures winner >= -2 && (winner == -1 <==> keys <= td.cols[..td.pkeys])
    ensures winner == -2 <==> !(keys <= td.cols[..td.pkeys]) && forall i :: 0 <= i < |td.indexes| ==> !(keys <= td.indexes[i])
    ensures winner >= 0 ==> winner < |td.indexes| && keys <= td.indexes[winner]
    ensures winner >= 0 ==> forall i :: 0 <= i < |td.indexes| && keys <= td.indexes[i] ==>
              |td.indexes[winner]| < |td.indexes[i]| || (|td.indexes[winner]| == |td.indexes[i]| && winner <= i)
  {
    IsPrefixIs(td, keys);
    if IsPrefix(Pk(td), keys) {
      return -1;
    }
    winner := -2;
    for i := 0 to |td.indexes|
      invariant winner == -2 || 0 <= winner < i
      invariant winner == -2 ==> forall j :: 0 <= j < i ==> !IsPrefix(td.indexes[j], keys)
      invariant winner >= 0 ==> IsPrefix(td.indexes[winner], keys)
      invariant winner >= 0 ==> forall j :: 0 <= j < i && IsPrefix(td.indexes[j], keys) ==> |td.indexes[winner]| <= |td.indexes[j]|
      invariant winner >= 0 ==> forall j :: 0 <= j < winner && IsPrefix(td.indexes[j], keys) ==> |td.indexes[winner]| < |td.indexes[j]|
    {
      if IsPrefix(td.indexes[i], keys) {
        if winner == -2 || |td.indexes[i]| < |td.indexes[winner]| {
          winner := i;
        }
      }
    }
  }

  lemma IsPrefixIs(td: TableDef, keys: seq<Name>)
    requires td.pkeys <= |td.cols|
    ensures IsPrefix(Pk(td), keys) <==> keys <= td.cols[..td.pkeys]
    ensures forall i :: 0 <= i < |td.indexes| ==> (IsPrefix(td.indexes[i], keys) <==> keys <= td.indexes[i])
  {
  }

  /** find_index has only one answer. */
  lemma ChosenIsUnique(td: TableDef, keys: seq<Name>, r: int, q: int)
    requires td.pkeys <= |td.cols| && Chosen(td, keys, r) && Chosen(td, keys, q)
    ensures r == q
  {
    assert r >= 0 && q >= 0 ==> IsPrefix(td.indexes[r], keys) && IsPrefix(td.indexes[q], keys);
  }

  /** The columns and prefix of the tree numbered r: the primary key's for -1. */
  function TreeCols(td: TableDef, r: int): seq<Name>
    requires td.pkeys <= |td.cols| && -1 <= r < |td.indexes|
  {
    if r < 0 then Pk(td) else td.indexes[r]
  }

  function TreePrefix(td: TableDef, r: int): nat
    requires -1 <= r < |td.indexPrefixes|
  {
    if r < 0 then td.prefix else td.indexPrefixes[r]
  }
}

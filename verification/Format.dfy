/** Samples of what is stored, byte for byte: codes, keys, rows, table definitions, nodes. */
module Formats {
  import opened Bytes
  import opened Nodes
  import BTrees
  import opened OrderPreserving
  import opened RowCodec
  import opened Tables
  import opened TableTexts
  import opened NodeLayouts
  import opened Samples
  import opened TableAccess
  import opened Catalogs

  /** 1 and -1, with the sign bit flipped. */
  lemma NumberCodes()
    ensures Code(Int(1)) == [0x80, 0, 0, 0, 0, 0, 0, 1]
    ensures Code(Int(-1)) == [0x7f, 0xff, 0xff, 0xff, 0xff, 0xff, 0xff, 0xff]
  {
    hide BigEndian;
    BigEndianOnes();
    TopBitAndOne();
  }

  lemma TopBitAndOne()
    ensures BigEndian(0x8000_0000_0000_0001, 8) == [0x80, 0, 0, 0, 0, 0, 0, 1]
  {
    assert BigEndian(0x80, 1) == [0x80] && BigEndian(0x8000, 2) == [0x80, 0] && BigEndian(0x80_0000, 3) == [0x80, 0, 0];
    assert BigEndian(0x8000_0000, 4) == [0x80, 0, 0, 0] && BigEndian(0x80_0000_0000, 5) == [0x80, 0, 0, 0, 0];
    assert BigEndian(0x8000_0000_0000, 6) == [0x80, 0, 0, 0, 0, 0] && BigEndian(0x80_0000_0000_0000, 7) == [0x80, 0, 0, 0, 0, 0, 0];
  }

  lemma BigEndianOnes()
    ensures BigEndian(0x7fff_ffff_ffff_ffff, 8) == [0x7f, 0xff, 0xff, 0xff, 0xff, 0xff, 0xff, 0xff]
  {
    assert BigEndian(0x7f, 1) == [0x7f] && BigEndian(0x7fff, 2) == [0x7f, 0xff] && BigEndian(0x7f_ffff, 3) == [0x7f, 0xff, 0xff];
    assert BigEndian(0x7fff_ffff, 4) == [0x7f, 0xff, 0xff, 0xff] && BigEndian(0x7f_ffff_ffff, 5) == [0x7f, 0xff, 0xff, 0xff, 0xff];
    assert BigEndian(0x7fff_ffff_ffff, 6) == [0x7f, 0xff, 0xff, 0xff, 0xff, 0xff];
    assert BigEndian(0x7f_ffff_ffff_ffff, 7) == [0x7f, 0xff, 0xff, 0xff, 0xff, 0xff, 0xff];
  }

  /** The bytes 0, 1 and 2, then 0xff first and last, and the last byte that is not escaped in front. */
  lemma StringCodes()
    ensures Code(Str([0, 1, 2])) == [1, 1, 1, 2, 2, 0] && Code(Str([0xff, 0xff])) == [0xfe, 0xff, 0xff, 0] && Code(Str([])) == [0]
    ensures Code(Str([0xfd])) == [0xfd, 0] && Code(Str([0xfe])) == [0xfe, 0xfe, 0]
  {
    hide EscapeRest;
    Byte(0xfd);
    Byte(0xfe);
    FewBytes();
  }

  lemma FewBytes()
    ensures EscapeRest([]) == [] && EscapeRest([0, 1, 2]) == [1, 1, 1, 2, 2] && EscapeRest([0xff, 0xff]) == [0xff, 0xff]
  {
    Byte(2);
    Byte(0xff);
    assert [1, 2][1..] == [2] && [0, 1, 2][1..] == [1, 2] && [0xff, 0xff][1..] == [0xff];
    assert EscapeRest([1, 2]) == [1, 2] + EscapeRest([2]);
  }

  lemma Byte(b: Byte)
    requires b > 1
    ensures EscapeRest([b]) == [b]
  {
    assert [b][1..] == [];
  }

  /** A key: four bytes of prefix, and the columns one after the other. */
  lemma KeyBytes()
    ensures EncodeKey(0x0102_0304, [Str([]), Str([2])]) == [1, 2, 3, 4, 0, 2, 0]
  {
    hide BigEndian, EscapeRest;
    OnePrefix();
    OneTuple();
  }

  lemma OnePrefix()
    ensures BigEndian(0x0102_0304, 4) == [1, 2, 3, 4]
  {
    var p := 0x0102_0304;
    assert BigEndian(1, 1) == [1] && BigEndian(0x102, 2) == [1, 2] && BigEndian(0x1_0203, 3) == [1, 2, 3] && BigEndian(p, 4) == [1, 2, 3, 4];
  }

  lemma OneTuple()
    ensures Encode([Str([]), Str([2])]) == [0, 2, 0]
  {
    hide EscapeRest;
    Byte(2);
    FewBytes();
    assert [Str([]), Str([2])][1..] == [Str([2])] && [Str([2])][1..] == [];
    assert Code(Str([])) == [0] && Code(Str([2])) == [2, 0];
    assert Encode([Str([2])]) == [2, 0] + Encode([]);
    assert Encode([Str([]), Str([2])]) == [0] + Encode([Str([2])]);
  }

  /** An index on a, or on b, completed with the primary key p, b. */
  lemma CompletedIndexes()
    ensures Completed([COL_A], [COL_P, COL_B]) == [COL_A, COL_P, COL_B] && Completed([COL_B], [COL_P, COL_B]) == [COL_B, COL_P]
  {
    var pk: seq<Name>, b: seq<Name> := [COL_P, COL_B], [COL_B];
    var ap: seq<Name>, apb: seq<Name> := [COL_A, COL_P], [COL_A, COL_P, COL_B];
    assert pk[1..] == b && |b[1..]| == 0 && COL_A[0] != COL_P[0] && COL_P[0] != COL_B[0] && COL_A[0] != COL_B[0];
    assert [COL_A] + [COL_P] == ap && ap + [COL_B] == apb;
    assert Completed(apb, b[1..]) == apb;
    assert Completed(ap, b) == Completed(apb, b[1..]);
    assert Completed([COL_A], pk) == Completed(ap, b);
    var bp: seq<Name> := [COL_B, COL_P];
    assert [COL_B] + [COL_P] == bp && COL_B in bp;
    assert Completed(bp, b) == Completed(bp, b[1..]) == bp;
    assert Completed([COL_B], pk) == Completed(bp, b);
  }

  /** The catalog's own keys: prefix 1 with "next_prefix", prefix 2 with a table's name, neither encoded. */
  lemma CatalogKeys(name: Name)
    ensures MetaKey() == [0, 0, 0, 1, 110, 101, 120, 116, 95, 112, 114, 101, 102, 105, 120]
    ensures DefKey(name) == [0, 0, 0, 2] + name
  {
    hide BigEndian;
    FewPrefixes();
  }

  lemma FewPrefixes()
    ensures BigEndian(1, 4) == [0, 0, 0, 1] && BigEndian(2, 4) == [0, 0, 0, 2]
  {
    assert BigEndian(0, 1) == [0] && BigEndian(0, 2) == [0, 0] && BigEndian(0, 3) == [0, 0, 0];
  }

  /** A row is its other columns under its primary key. */
  lemma StoredRow(m: map<Key, Key>, td: TableDef, rows: Rows, pk: seq<Value>)
    requires Agrees(m, td, rows) && pk in rows
    ensures |pk + rows[pk]| == |td.cols| && Storable(pk) && Storable(rows[pk])
    ensures EncodeKey(td.prefix, pk) in m && m[EncodeKey(td.prefix, pk)] == Encode(rows[pk])
  {
    hide TableOk, EncodeKey, Encode, IndexesAgree, Types, SameByName;
    assert pk == (pk + rows[pk])[..|pk|];
  }

  /** And nothing in each index, under its columns there. */
  lemma StoredEntry(m: map<Key, Key>, td: TableDef, rows: Rows, pk: seq<Value>, i: nat, t: seq<Value>)
    requires Agrees(m, td, rows) && pk in rows && i < |td.indexes| == |td.indexPrefixes| && |t| == |td.indexes[i]|
    requires forall j :: 0 <= j < |t| ==>
               var k := ColIndex(td.cols, td.indexes[i][j]); 0 <= k < |pk + rows[pk]| && t[j] == (pk + rows[pk])[k]
    ensures Storable(t) && EncodeKey(td.indexPrefixes[i], t) in m && m[EncodeKey(td.indexPrefixes[i], t)] == []
  {
    hide EncodeKey, Encode, RowsAgree, Types, SameByName, Project, Storable;
    assert IndexOk(td, td.indexes[i]) && RowOk(td, pk + rows[pk]) && IndexAgrees(m, td, i, rows);
    ProjectTypes(td, td.indexes[i], pk + rows[pk]);
    IsProjection(td, td.indexes[i], pk + rows[pk], t);
  }

  lemma IsProjection(td: TableDef, cols: seq<Name>, row: Row, t: seq<Value>)
    requires |row| == |td.cols| && (forall c :: c in cols ==> c in td.cols) && |t| == |cols|
    requires forall j :: 0 <= j < |t| ==> var k := ColIndex(td.cols, cols[j]); 0 <= k < |row| && t[j] == row[k]
    ensures t == Project(td, cols, row)
  {
  }

  /** The first table of a store: prefix 3 for its rows, then one for each index; and the one that reaches 2^32. */
  lemma FirstPrefixes()
    ensures NewTable(LAST, map[]) == LAST.(indexes := [[COL_A, COL_P], [COL_B, COL_P]], prefix := 3, indexPrefixes := [4, 5])
    ensures NewTable(LAST, NearlyOut()) == LAST.(indexes := [[COL_A, COL_P], [COL_B, COL_P]], prefix := 0xffff_ffff, indexPrefixes := [0, 1])
  {
    AllOnes();
    var pk: seq<Name> := [COL_P];
    assert Pk(LAST) == pk && |pk[1..]| == 0 && COL_A[0] != COL_P[0] && COL_B[0] != COL_P[0];
    assert [COL_A] + [COL_P] == [COL_A, COL_P] && [COL_B] + [COL_P] == [COL_B, COL_P];
    assert Completed([COL_A], pk) == Completed([COL_A, COL_P], pk[1..]);
    assert Completed([COL_B], pk) == Completed([COL_B, COL_P], pk[1..]);
    assert Normalized(LAST).indexes == [[COL_A, COL_P], [COL_B, COL_P]];
  }

  /** What the limits are. */
  lemma Limits(key: Key)
    ensures BTrees.KeyInLimit(key) <==> 1 <= |key| <= 1000
    ensures MAX_VAL == 1000 && PAGE_SIZE == 4096 && PREFIX_LIMIT == 0x1_0000_0000
  {
  }

  /** Two columns, p a number and a string a, and an index on a completed with p. */
  const TEXT_SAMPLE: TableDef := TableDef(NAME, [COL_P, COL_A], [INT_64, BYTES], 1, [[COL_A, COL_P]], 3, [4])

  /** "t\n1\n3\n2\np 1\na 2\n1\n2 a p\n1 4\n" */
  lemma DefinitionText()
    ensures EncodeDef(TEXT_SAMPLE) ==
            [116, 10, 49, 10, 51, 10, 50, 10, 112, 32, 49, 10, 97, 32, 50, 10, 49, 10, 50, 32, 97, 32, 112, 10, 49, 32, 52, 10]
  {
    hide Many, Columns, Digits;
    ColumnText();
    IndexText();
    PrefixText();
    OneDigit(1);
    OneDigit(2);
    OneDigit(3);
    var head := TEXT_SAMPLE.name + Line(TEXT_SAMPLE.pkeys) + Line(TEXT_SAMPLE.prefix) + Line(2);
    assert head == [116, 10, 49, 10, 51, 10, 50];
    var tail := Line(1) + Many(Num, TEXT_SAMPLE.indexPrefixes) + [NEWLINE];
    assert tail == [10, 49, 32, 52, 10];
    assert EncodeDef(TEXT_SAMPLE) ==
           head + Many(ColumnLine, Columns(TEXT_SAMPLE.cols, TEXT_SAMPLE.types)) + Line(1) + Many(IndexLine, TEXT_SAMPLE.indexes) + tail;
  }

  lemma OneDigit(n: nat)
    requires n < 10
    ensures Digits(n) == [48 + n]
  {
  }

  lemma ColumnText()
    ensures Many(ColumnLine, Columns(TEXT_SAMPLE.cols, TEXT_SAMPLE.types)) == [10, 112, 32, 49, 10, 97, 32, 50]
  {
    var p, a := Column(COL_P, INT_64), Column(COL_A, BYTES);
    assert Columns(TEXT_SAMPLE.cols, TEXT_SAMPLE.types) == [p, a] && [p, a][1..] == [a] && [a][1..] == [];
    assert Many(ColumnLine, [a]) == ColumnLine(a) + Many(ColumnLine, []);
    assert Many(ColumnLine, [p, a]) == ColumnLine(p) + Many(ColumnLine, [a]);
  }

  lemma IndexText()
    ensures Many(IndexLine, TEXT_SAMPLE.indexes) == [10, 50, 32, 97, 32, 112]
  {
    var index := [COL_A, COL_P];
    var indexes := [index];
    assert index[1..] == [COL_P] && [COL_P][1..] == [] && |indexes[1..]| == 0;
    assert Many(Word, [COL_P]) == Word(COL_P) + Many(Word, []);
    assert Many(Word, index) == Word(COL_A) + Many(Word, [COL_P]);
    assert Many(IndexLine, indexes) == IndexLine(index) + Many(IndexLine, []);
  }

  lemma PrefixText()
    ensures Many(Num, TEXT_SAMPLE.indexPrefixes) == [32, 52]
  {
    var ns: seq<nat> := [4];
    assert ns[1..] == [] && Many(Num, ns) == Num(4) + Many(Num, []);
  }

  /** A node: kind, number of keys, then child pointers, offsets, and keys with their values. */
  lemma NodeBytes(d: seq<Byte>)
    requires Encodes(d, Node(true, [Entry(0, [7], [8, 9])]))
    ensures |d| >= 21 && d[..21] == [2, 0, 1, 0, 0, 0, 0, 0, 0, 0, 0, 0, 7, 0, 1, 0, 2, 0, 7, 8, 9]
  {
    var e := Entry(0, [7], [8, 9]);
    OneEntry(e);
    assert EntryAt(d, 1, [e], 0);
    Parts();
    Zeros8();
    hide LittleEndian, PairBytes, HeaderBytes, PairsSize, Laid, EntryAt;
    assert At(d, 0, [2, 0, 1, 0]) && At(d, 4, LittleEndian(0, 8)) && At(d, 12, [7, 0]) && At(d, 14, [1, 0, 2, 0, 7, 8, 9]);
    FourParts(d);
  }

  lemma FourParts(d: seq<Byte>)
    requires |d| >= 21 && d[0..4] == [2, 0, 1, 0] && d[4..12] == [0, 0, 0, 0, 0, 0, 0, 0] && d[12..14] == [7, 0]
    requires d[14..21] == [1, 0, 2, 0, 7, 8, 9]
    ensures d[..21] == [2, 0, 1, 0, 0, 0, 0, 0, 0, 0, 0, 0, 7, 0, 1, 0, 2, 0, 7, 8, 9]
  {
    assert d[..21] == d[0..4] + d[4..12] + d[12..14] + d[14..21];
  }

  lemma OneEntry(e: Entry)
    ensures [e][..0] == [] && [e][..1] == [e] && PairsSize([e]) == 4 + |e.key| + |e.val|
  {
    assert [e][1..] == [];
  }

  lemma Parts()
    ensures HeaderBytes(true, 1) == [2, 0, 1, 0] && LittleEndian(7, 2) == [7, 0] && PairBytes(Entry(0, [7], [8, 9])) == [1, 0, 2, 0, 7, 8, 9]
  {
    assert LittleEndian(2, 2) == [2, 0] && LittleEndian(1, 2) == [1, 0] && LittleEndian(7, 2) == [7, 0] by {
      assert LittleEndian(0, 1) == [0];
    }
  }

  lemma Zeros8()
    ensures LittleEndian(0, 8) == [0, 0, 0, 0, 0, 0, 0, 0]
  {
    assert LittleEndian(0, 1) == [0] && LittleEndian(0, 2) == [0, 0] && LittleEndian(0, 3) == [0, 0, 0] && LittleEndian(0, 4) == [0, 0, 0, 0];
    assert LittleEndian(0, 5) == [0, 0, 0, 0, 0] && LittleEndian(0, 6) == [0, 0, 0, 0, 0, 0] && LittleEndian(0, 7) == [0, 0, 0, 0, 0, 0, 0];
  }
}

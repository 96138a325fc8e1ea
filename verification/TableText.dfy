/** The text a table definition is stored as (src/catalog/tabledef.cpp): written to a stream, read back word by word. */
module TableTexts {
  import opened Bytes
  import opened OrderPreserving
  import opened Tables

  const NEWLINE: Byte := 10
  const SPACE: Byte := 32

  predicate IsSpace(b: Byte) { b == SPACE || 9 <= b <= 13 }

  predicate IsDigit(b: Byte) { 48 <= b <= 57 }

  predicate InWord(b: Byte) { !IsSpace(b) }

  predicate InLine(b: Byte) { b != NEWLINE }

  // ------------------------------------------------------------ what is written

  function Digits(n: nat): Key
  {
    (if n < 10 then [] else Digits(n / 10)) + [48 + n % 10]
  }

  function Many<T>(show: T -> Key, xs: seq<T>): Key
  {
    if xs == [] then [] else show(xs[0]) + Many(show, xs[1..])
  }

  datatype Column = Column(name: Name, t: Type)

  function Columns(cols: seq<Name>, types: seq<Type>): (cs: seq<Column>)
    requires |cols| == |types|
    ensures |cs| == |cols|
  {
    seq(|cols|, i requires 0 <= i < |cols| => Column(cols[i], types[i]))
  }

  function TypeCode(t: Type): nat
  {
    match t
    case ERROR => 0
    case INT_64 => 1
    case BYTES => 2
  }

  /** Every word and number has one byte of white space before it, the first word apart. */
  function Line(n: nat): Key { [NEWLINE] + Digits(n) }

  function Word(name: Name): Key { [SPACE] + name }

  function Num(n: nat): Key { [SPACE] + Digits(n) }

  function ColumnLine(c: Column): Key { [NEWLINE] + c.name + Num(TypeCode(c.t)) }

  function IndexLine(index: seq<Name>): Key { Line(|index|) + Many(Word, index) }

  function EncodeDef(td: TableDef): Key
    requires |td.cols| == |td.types|
  {
    td.name + Line(td.pkeys) + Line(td.prefix)
    + Line(|td.cols|) + Many(ColumnLine, Columns(td.cols, td.types))
    + Line(|td.indexes|) + Many(IndexLine, td.indexes)
    + Line(|td.indexPrefixes|) + Many(Num, td.indexPrefixes) + [NEWLINE]
  }

  // ------------------------------------------------------------ what is read

  /** What an extraction returns, and the rest of the stream. */
  datatype Read<T> = Read(val: T, rest: Key)

  /** How far the stream goes on with bytes of this kind. */
  function Span(s: Key, p: Byte -> bool): (n: nat)
    ensures n <= |s| && (n < |s| ==> !p(s[n]))
    ensures forall i :: 0 <= i < n ==> p(s[i])
  {
    if s != [] && p(s[0]) then 1 + Span(s[1..], p) else 0
  }

  function SkipSpace(s: Key): Key
  {
    s[Span(s, IsSpace)..]
  }

  /** A line; fails only at the end of the stream. */
  function ReadLine(s: Key): Option<Read<Name>>
  {
    if s == [] then None
    else var n := Span(s, InLine); Some(Read(s[..n], if n < |s| then s[n + 1..] else []))
  }

  /** A word, after any white space. */
  function ReadWord(s: Key): Option<Read<Name>>
  {
    var t := SkipSpace(s);
    var n := Span(t, InWord);
    if n == 0 then None else Some(Read(t[..n], t[n..]))
  }

  function Number(ds: Key): int
  {
    if ds == [] then 0 else 10 * Number(ds[..|ds| - 1]) + ds[|ds| - 1] - 48
  }

  /** A number below the limit of its field, after any white space. */
  function ReadNumber(s: Key, limit: nat): Option<Read<nat>>
  {
    var t := SkipSpace(s);
    var n := Span(t, IsDigit);
    if n == 0 || !(0 <= Number(t[..n]) < limit) then None else Some(Read(Number(t[..n]), t[n..]))
  }

  const INT_LIMIT: nat := 0x8000_0000
  const UINT_LIMIT: nat := 0x1_0000_0000
  const SIZE_LIMIT: nat := 0x1_0000_0000_0000_0000

  function ReadUint(s: Key): Option<Read<nat>> { ReadNumber(s, UINT_LIMIT) }

  function TypeOfCode(code: nat): Option<Type>
  {
    if code == 0 then Some(ERROR) else if code == 1 then Some(INT_64) else if code == 2 then Some(BYTES) else None
  }

  function ReadColumn(s: Key): Option<Read<Column>>
  {
    var col := ReadWord(s);
    if col.None? then None
    else
      var code := ReadUint(col.value.rest);
      if code.None? || TypeOfCode(code.value.val).None? then None
      else Some(Read(Column(col.value.val, TypeOfCode(code.value.val).value), code.value.rest))
  }

  /** n extractions, one after the other. */
  function ReadMany<T>(read: Key -> Option<Read<T>>, s: Key, n: nat): (r: Option<Read<seq<T>>>)
    ensures r.Some? ==> |r.value.val| == n
    decreases n
  {
    if n == 0 then Some(Read([], s))
    else
      var first := read(s);
      if first.None? then None
      else
        var more := ReadMany(read, first.value.rest, n - 1);
        if more.None? then None else Some(Read([first.value.val] + more.value.val, more.value.rest))
  }

  /** A size, and then as many extractions. */
  function ReadList<T>(read: Key -> Option<Read<T>>, s: Key): Option<Read<seq<T>>>
  {
    var n := ReadNumber(s, SIZE_LIMIT);
    if n.None? then None else ReadMany(read, n.value.rest, n.value.val)
  }

  function ReadIndex(s: Key): Option<Read<seq<Name>>> { ReadList(ReadWord, s) }

  /** The columns are read past the end of their number's line. */
  function ReadColumnList(s: Key): Option<Read<seq<Column>>>
  {
    var n := ReadNumber(s, SIZE_LIMIT);
    if n.None? then None
    else ReadMany(ReadColumn, if n.value.rest == [] then [] else n.value.rest[1..], n.value.val)
  }

  function DecodeDef(s: Key): Option<TableDef>
  {
    var name := ReadLine(s);
    if name.None? then None else
    var pkeys := ReadNumber(name.value.rest, INT_LIMIT);
    if pkeys.None? then None else
    var prefix := ReadUint(pkeys.value.rest);
    if prefix.None? then None else
    var cs := ReadColumnList(prefix.value.rest);
    if cs.None? then None else
    var indexes := ReadList(ReadIndex, cs.value.rest);
    if indexes.None? then None else
    var prefixes := ReadList(ReadUint, indexes.value.rest);
    if prefixes.None? then None else
    Some(TableDef(name.value.val, NamesOf(cs.value.val), TypesOf(cs.value.val), pkeys.value.val, indexes.value.val,
                  prefix.value.val, prefixes.value.val))
  }

  function NamesOf(cs: seq<Column>): (cols: seq<Name>)
    ensures |cols| == |cs|
  {
    seq(|cs|, i requires 0 <= i < |cs| => cs[i].name)
  }

  function TypesOf(cs: seq<Column>): (types: seq<Type>)
    ensures |types| == |cs|
  {
    seq(|cs|, i requires 0 <= i < |cs| => cs[i].t)
  }

  // ------------------------------------------------------------ the round trip

  /** A word that the stream reads back whole. */
  predicate Plain(name: Name)
  {
    name != [] && forall i :: 0 <= i < |name| ==> !IsSpace(name[i])
  }

  /** What the text can carry: a table name on one line, and column names that are words. table_def_check asks neither. */
  predicate PlainNames(td: TableDef)
  {
    && (forall i :: 0 <= i < |td.name| ==> td.name[i] != NEWLINE)
    && (forall i :: 0 <= i < |td.cols| ==> Plain(td.cols[i]))
    && (forall i, j :: 0 <= i < |td.indexes| && 0 <= j < |td.indexes[i]| ==> Plain(td.indexes[i][j]))
  }

  /** The widths of the fields. */
  predicate FitsFields(td: TableDef)
  {
    && |td.cols| == |td.types| < SIZE_LIMIT && td.pkeys < INT_LIMIT && td.prefix < UINT_LIMIT
    && |td.indexes| < SIZE_LIMIT && (forall i :: 0 <= i < |td.indexes| ==> |td.indexes[i]| < SIZE_LIMIT)
    && |td.indexPrefixes| < SIZE_LIMIT && (forall i :: 0 <= i < |td.indexPrefixes| ==> td.indexPrefixes[i] < UINT_LIMIT)
  }

  predicate Ends(t: Key) { t == [] || IsSpace(t[0]) }

  predicate Same(s: Key, t: Key) { SkipSpace(s) == SkipSpace(t) }

  lemma {:induction false} SpanOf(a: Key, b: Key, p: Byte -> bool)
    requires (forall i :: 0 <= i < |a| ==> p(a[i])) && (b != [] ==> !p(b[0]))
    ensures Span(a + b, p) == |a|
  {
    if a != [] {
      assert (a + b)[1..] == a[1..] + b;
      SpanOf(a[1..], b, p);
    } else {
      assert a + b == b;
    }
  }

  /** White space in front does not matter. */
  lemma Skipped(w: Byte, s: Key)
    requires IsSpace(w)
    ensures Same([w] + s, s)
  {
    assert ([w] + s)[1..] == s;
    assert Span([w] + s, IsSpace) == 1 + Span(s, IsSpace);
  }

  lemma NotSkipped(s: Key)
    requires s == [] || !IsSpace(s[0])
    ensures SkipSpace(s) == s
  {
  }

  lemma WordReads(s: Key, w: Byte, name: Name, t: Key)
    requires IsSpace(w) && Plain(name) && Ends(t) && Same(s, [w] + name + t)
    ensures ReadWord(s) == Some(Read(name, t))
  {
    assert [w] + name + t == [w] + (name + t);
    Skipped(w, name + t);
    NotSkipped(name + t);
    SpanOf(name, t, InWord);
  }

  lemma {:induction false} DigitsFacts(n: nat)
    ensures Digits(n) != [] && Number(Digits(n)) == n && forall i :: 0 <= i < |Digits(n)| ==> IsDigit(Digits(n)[i])
  {
    var ds := Digits(n);
    if n >= 10 {
      DigitsFacts(n / 10);
      assert ds[..|ds| - 1] == Digits(n / 10);
    }
  }

  lemma NumberReads(s: Key, w: Byte, n: nat, limit: nat, t: Key)
    requires IsSpace(w) && n < limit && Ends(t) && Same(s, [w] + Digits(n) + t)
    ensures ReadNumber(s, limit) == Some(Read(n, t))
  {
    DigitsFacts(n);
    hide Digits, Number;
    assert [w] + Digits(n) + t == [w] + (Digits(n) + t);
    Skipped(w, Digits(n) + t);
    NotSkipped(Digits(n) + t);
    SpanOf(Digits(n), t, IsDigit);
    assert (Digits(n) + t)[..|Digits(n)|] == Digits(n);
  }

  /** read undoes show, whatever follows. */
  ghost predicate Undoes<T(!new)>(read: Key -> Option<Read<T>>, show: T -> Key, x: T)
  {
    && show(x) != [] && Ends(show(x))
    && forall s, t :: Ends(t) && Same(s, show(x) + t) ==> Reads(read(s), x, t)
  }

  predicate Reads<T(==)>(r: Option<Read<T>>, x: T, t: Key)
  {
    r.Some? && r.value.val == x && Same(r.value.rest, t)
  }

  lemma {:induction false} ManyReads<T(!new)>(read: Key -> Option<Read<T>>, show: T -> Key, xs: seq<T>, s: Key, t: Key)
    requires Ends(t) && Same(s, Many(show, xs) + t) && forall x :: x in xs ==> Undoes(read, show, x)
    ensures Ends(Many(show, xs) + t) && Reads(ReadMany(read, s, |xs|), xs, t)
    decreases |xs|
  {
    hide Same;
    if xs == [] {
      assert [] + t == t;
    } else {
      var more := Many(show, xs[1..]) + t;
      assert Many(show, xs) + t == show(xs[0]) + more;
      assert Undoes(read, show, xs[0]);
      MoreEnds(read, show, xs[1..], t);
      assert Reads(read(s), xs[0], more);
      ManyReads(read, show, xs[1..], read(s).value.rest, t);
      assert xs == [xs[0]] + xs[1..];
    }
  }

  lemma MoreEnds<T(!new)>(read: Key -> Option<Read<T>>, show: T -> Key, xs: seq<T>, t: Key)
    requires Ends(t) && forall x :: x in xs ==> Undoes(read, show, x)
    ensures Ends(Many(show, xs) + t)
  {
    hide Same;
    if xs != [] {
      assert Undoes(read, show, xs[0]);
    } else {
      assert [] + t == t;
    }
  }

  lemma WordUndoes(name: Name)
    requires Plain(name)
    ensures Undoes(ReadWord, Word, name)
  {
    hide Same;
    forall s, t | Ends(t) && Same(s, Word(name) + t)
      ensures Reads(ReadWord(s), name, t)
    {
      WordReads(s, SPACE, name, t);
      SameSelf(t);
    }
  }

  lemma NumUndoes(n: nat)
    requires n < UINT_LIMIT
    ensures Undoes(ReadUint, Num, n)
  {
    hide Same, Digits;
    forall s, t | Ends(t) && Same(s, Num(n) + t)
      ensures Reads(ReadUint(s), n, t)
    {
      NumberReads(s, SPACE, n, UINT_LIMIT, t);
      SameSelf(t);
    }
  }

  lemma ColumnUndoes(c: Column)
    requires Plain(c.name)
    ensures Undoes(ReadColumn, ColumnLine, c)
  {
    hide Same, Digits, ReadWord, ReadNumber, Plain;
    forall s, t | Ends(t) && Same(s, ColumnLine(c) + t)
      ensures Reads(ReadColumn(s), c, t)
    {
      var code := Num(TypeCode(c.t));
      assert ColumnLine(c) + t == [NEWLINE] + c.name + (code + t);
      WordReads(s, NEWLINE, c.name, code + t);
      SameSelf(code + t);
      NumberReads(code + t, SPACE, TypeCode(c.t), UINT_LIMIT, t);
      SameSelf(t);
    }
  }

  /** A size and its list. */
  lemma ListReads<T(!new)>(read: Key -> Option<Read<T>>, show: T -> Key, xs: seq<T>, s: Key, t: Key)
    requires |xs| < SIZE_LIMIT && Ends(t) && Same(s, Line(|xs|) + Many(show, xs) + t)
    requires forall x :: x in xs ==> Undoes(read, show, x)
    ensures Reads(ReadList(read, s), xs, t)
  {
    hide Same, Digits, Many, ReadMany, ReadNumber, Undoes, Ends;
    var more := Many(show, xs) + t;
    assert Line(|xs|) + Many(show, xs) + t == [NEWLINE] + Digits(|xs|) + more;
    MoreEnds(read, show, xs, t);
    NumberReads(s, NEWLINE, |xs|, SIZE_LIMIT, more);
    SameSelf(more);
    ManyReads(read, show, xs, more, t);
  }

  lemma SameSelf(s: Key)
    ensures Same(s, s)
  {
  }

  lemma IndexUndoes(index: seq<Name>)
    requires |index| < SIZE_LIMIT && forall i :: 0 <= i < |index| ==> Plain(index[i])
    ensures Undoes(ReadIndex, IndexLine, index)
  {
    hide Same, Digits, Plain;
    forall name | name in index
      ensures Undoes(ReadWord, Word, name)
    {
      WordUndoes(name);
    }
    forall s, t | Ends(t) && Same(s, IndexLine(index) + t)
      ensures Reads(ReadIndex(s), index, t)
    {
      ListReads(ReadWord, Word, index, s, t);
    }
  }

  /** decode_table_def undoes encode_table_def if and only if the names are words, and the table's name is one line. */
  lemma DecodeDefEncodeDef(td: TableDef)
    requires FitsFields(td)
    ensures DecodeDef(EncodeDef(td)) == Some(td) <==> PlainNames(td)
    ensures DecodeDef(EncodeDef(td)) == Some(td) <==>
              && 10 !in td.name
              && (forall c :: c in td.cols ==> c != [] && 32 !in c && 9 !in c && 10 !in c && 11 !in c && 12 !in c && 13 !in c)
              && forall index, c :: index in td.indexes && c in index ==> c != [] && 32 !in c && 9 !in c && 10 !in c && 11 !in c && 12 !in c && 13 !in c
  {
    hide DecodeDef, EncodeDef;
    PlainNamesAre(td);
    if PlainNames(td) {
      DefReads(td);
    }
    if DecodeDef(EncodeDef(td)) == Some(td) {
      DecodedNames(EncodeDef(td));
    }
  }

  lemma PlainNamesAre(td: TableDef)
    ensures PlainNames(td) <==>
              && 10 !in td.name
              && (forall c :: c in td.cols ==> c != [] && 32 !in c && 9 !in c && 10 !in c && 11 !in c && 12 !in c && 13 !in c)
              && forall index, c :: index in td.indexes && c in index ==> c != [] && 32 !in c && 9 !in c && 10 !in c && 11 !in c && 12 !in c && 13 !in c
  {
    hide Plain;
    forall c
      ensures Plain(c) <==> c != [] && 32 !in c && 9 !in c && 10 !in c && 11 !in c && 12 !in c && 13 !in c
    {
      PlainIs(c);
    }
    assert (forall c :: c in td.cols ==> Plain(c)) <==> forall i :: 0 <= i < |td.cols| ==> Plain(td.cols[i]);
    if forall i, j :: 0 <= i < |td.indexes| && 0 <= j < |td.indexes[i]| ==> Plain(td.indexes[i][j]) {
      forall index, c | index in td.indexes && c in index
        ensures Plain(c)
      {
        var i :| 0 <= i < |td.indexes| && td.indexes[i] == index;
        var j :| 0 <= j < |index| && index[j] == c;
      }
    } else {
      var i, j :| 0 <= i < |td.indexes| && 0 <= j < |td.indexes[i]| && !Plain(td.indexes[i][j]);
      assert td.indexes[i] in td.indexes && td.indexes[i][j] in td.indexes[i];
    }
  }

  lemma PlainIs(c: Name)
    ensures Plain(c) <==> c != [] && 32 !in c && 9 !in c && 10 !in c && 11 !in c && 12 !in c && 13 !in c
  {
    if exists b :: b in c && IsSpace(b) {
      var b :| b in c && IsSpace(b);
      var i :| 0 <= i < |c| && c[i] == b;
      assert !Plain(c);
    }
  }

  lemma DefReads(td: TableDef)
    requires FitsFields(td) && PlainNames(td)
    ensures DecodeDef(EncodeDef(td)) == Some(td)
  {
    hide Same, Digits, ReadNumber, Plain, Many, ReadMany, ReadList;
    var cs := Columns(td.cols, td.types);
    var t5 := Line(|td.indexPrefixes|) + Many(Num, td.indexPrefixes) + [NEWLINE];
    var t4 := Line(|td.indexes|) + Many(IndexLine, td.indexes) + t5;
    var t3 := Line(|cs|) + Many(ColumnLine, cs) + t4;
    var t2 := Line(td.prefix) + t3;
    var t1 := Digits(td.pkeys) + t2;
    assert EncodeDef(td) == td.name + ([NEWLINE] + t1);
    LineReads(td.name, t1);
    LeadingSpace(t1);
    assert [NEWLINE] + t1 == [NEWLINE] + Digits(td.pkeys) + t2;
    NumberReads(t1, NEWLINE, td.pkeys, INT_LIMIT, t2);
    SameSelf(t2);
    assert t2 == [NEWLINE] + Digits(td.prefix) + t3;
    NumberReads(t2, NEWLINE, td.prefix, UINT_LIMIT, t3);
    ColumnsRead(td, t4);
    IndexesRead(td, ReadColumnList(t3).value.rest, t5);
    PrefixesRead(td, ReadList(ReadIndex, ReadColumnList(t3).value.rest).value.rest);
  }

  lemma LineReads(name: Name, t: Key)
    requires forall i :: 0 <= i < |name| ==> name[i] != NEWLINE
    ensures ReadLine(name + ([NEWLINE] + t)) == Some(Read(name, t))
  {
    var s := name + ([NEWLINE] + t);
    SpanOf(name, [NEWLINE] + t, InLine);
    assert s[..|name|] == name && s[|name| + 1..] == t;
  }

  lemma LeadingSpace(t: Key)
    ensures Same(t, [NEWLINE] + t)
  {
    Skipped(NEWLINE, t);
  }

  lemma ColumnsRead(td: TableDef, t: Key)
    requires FitsFields(td) && PlainNames(td) && Ends(t)
    ensures var cs := Columns(td.cols, td.types);
            && Reads(ReadColumnList(Line(|cs|) + Many(ColumnLine, cs) + t), cs, t)
            && NamesOf(cs) == td.cols && TypesOf(cs) == td.types
  {
    hide Same, Digits, ReadNumber, Plain, Many, ReadMany;
    var cs := Columns(td.cols, td.types);
    var more := Many(ColumnLine, cs) + t;
    var s := Line(|cs|) + Many(ColumnLine, cs) + t;
    assert s == [NEWLINE] + Digits(|cs|) + more;
    forall c | c in cs
      ensures Undoes(ReadColumn, ColumnLine, c)
    {
      ColumnUndoes(c);
    }
    MoreEnds(ReadColumn, ColumnLine, cs, t);
    SameSelf(s);
    NumberReads(s, NEWLINE, |cs|, SIZE_LIMIT, more);
    OneIgnored(more);
    ManyReads(ReadColumn, ColumnLine, cs, if more == [] then [] else more[1..], t);
  }

  lemma OneIgnored(t: Key)
    requires Ends(t)
    ensures Same(if t == [] then [] else t[1..], t)
  {
    if t != [] {
      assert t == [t[0]] + t[1..];
      Skipped(t[0], t[1..]);
    }
  }

  lemma IndexesRead(td: TableDef, s: Key, t: Key)
    requires FitsFields(td) && PlainNames(td) && Ends(t) && Same(s, Line(|td.indexes|) + Many(IndexLine, td.indexes) + t)
    ensures Reads(ReadList(ReadIndex, s), td.indexes, t)
  {
    hide Same, Digits, Plain, ReadIndex, IndexLine;
    forall index | index in td.indexes
      ensures Undoes(ReadIndex, IndexLine, index)
    {
      IndexUndoes(index);
    }
    ListReads(ReadIndex, IndexLine, td.indexes, s, t);
  }

  lemma PrefixesRead(td: TableDef, s: Key)
    requires FitsFields(td) && Same(s, Line(|td.indexPrefixes|) + Many(Num, td.indexPrefixes) + [NEWLINE])
    ensures Reads(ReadList(ReadUint, s), td.indexPrefixes, [NEWLINE])
  {
    hide Same, Digits, ReadUint, Num;
    forall n | n in td.indexPrefixes
      ensures Undoes(ReadUint, Num, n)
    {
      NumUndoes(n);
    }
    ListReads(ReadUint, Num, td.indexPrefixes, s, [NEWLINE]);
  }

  // ------------------------------------------------------------ nothing but words is ever read

  lemma DecodedNames(s: Key)
    requires DecodeDef(s).Some?
    ensures PlainNames(DecodeDef(s).value)
  {
    hide ReadNumber, ReadIndex, ReadColumn, Plain;
    var td := DecodeDef(s).value;
    var name := ReadLine(s).value;
    var prefix := ReadUint(ReadNumber(name.rest, INT_LIMIT).value.rest).value;
    var cs := ReadColumnList(prefix.rest).value;
    var indexes := ReadList(ReadIndex, cs.rest).value;
    forall t | ReadColumn(t).Some?
      ensures Plain(ReadColumn(t).value.val.name)
    {
      ColumnWord(t);
    }
    var n := ReadNumber(prefix.rest, SIZE_LIMIT).value;
    AllRead(ReadColumn, if n.rest == [] then [] else n.rest[1..], n.val, (c: Column) => Plain(c.name));
    forall t | ReadIndex(t).Some?
      ensures AllPlain(ReadIndex(t).value.val)
    {
      IndexWords(t);
    }
    var k := ReadNumber(cs.rest, SIZE_LIMIT).value;
    AllRead(ReadIndex, k.rest, k.val, AllPlain);
  }

  predicate AllPlain(names: seq<Name>)
  {
    forall i :: 0 <= i < |names| ==> Plain(names[i])
  }

  lemma ColumnWord(s: Key)
    requires ReadColumn(s).Some?
    ensures Plain(ReadColumn(s).value.val.name)
  {
  }

  lemma IndexWords(s: Key)
    requires ReadIndex(s).Some?
    ensures AllPlain(ReadIndex(s).value.val)
  {
    hide ReadNumber;
    var n := ReadNumber(s, SIZE_LIMIT).value;
    assert forall t :: ReadWord(t).Some? ==> Plain(ReadWord(t).value.val);
    AllRead(ReadWord, n.rest, n.val, Plain);
  }

  lemma {:induction false} AllRead<T>(read: Key -> Option<Read<T>>, s: Key, n: nat, ok: T -> bool)
    requires ReadMany(read, s, n).Some? && forall t :: read(t).Some? ==> ok(read(t).value.val)
    ensures forall i :: 0 <= i < n ==> ok(ReadMany(read, s, n).value.val[i])
    decreases n
  {
    if n > 0 {
      AllRead(read, read(s).value.rest, n - 1, ok);
    }
  }

  // ------------------------------------------------------------ the loops

  lemma {:induction false} ManyAppended<T>(show: T -> Key, xs: seq<T>, x: T)
    ensures Many(show, xs + [x]) == Many(show, xs) + show(x)
  {
    if xs == [] {
      assert [] + [x] == [x] && [x][1..] == [];
    } else {
      assert (xs + [x])[1..] == xs[1..] + [x];
      ManyAppended(show, xs[1..], x);
    }
  }

  lemma ManySoFar<T>(show: T -> Key, xs: seq<T>, i: nat)
    requires i < |xs|
    ensures Many(show, xs[..i + 1]) == Many(show, xs[..i]) + show(xs[i])
  {
    assert xs[..i + 1] == xs[..i] + [xs[i]];
    ManyAppended(show, xs[..i], xs[i]);
  }

  /** Write a definition as text, field by field. */
  method EncodeTableDef(td: TableDef) returns (out: Key)
    requires |td.cols| == |td.types|
    ensures out == EncodeDef(td)
  {
    hide Digits, Many, Columns;
    ghost var cs := Columns(td.cols, td.types);
    out := td.name + [NEWLINE] + Digits(td.pkeys) + [NEWLINE] + Digits(td.prefix) + [NEWLINE] + Digits(|td.cols|) + [NEWLINE];
    ghost var head := td.name + Line(td.pkeys) + Line(td.prefix) + Line(|td.cols|);
    NoneYet(ColumnLine, cs);
    for i := 0 to |td.cols|
      invariant out == head + Many(ColumnLine, cs[..i]) + [NEWLINE]
    {
      out := out + td.cols[i] + [SPACE] + Digits(TypeCode(td.types[i])) + [NEWLINE];
      ColumnAt(td.cols, td.types, i);
      ManySoFar(ColumnLine, cs, i);
    }
    assert cs[..|td.cols|] == cs;
    out := out + Digits(|td.indexes|) + [NEWLINE];
    head := head + Many(ColumnLine, cs) + Line(|td.indexes|);
    NoneYet(IndexLine, td.indexes);
    for i := 0 to |td.indexes|
      invariant out == head + Many(IndexLine, td.indexes[..i]) + [NEWLINE]
    {
      var index := td.indexes[i];
      out := out + Digits(|index|);
      ghost var front := out;
      NoneYet(Word, index);
      for j := 0 to |index|
        invariant out == front + Many(Word, index[..j])
      {
        out := out + [SPACE] + index[j];
        ManySoFar(Word, index, j);
      }
      assert index[..|index|] == index;
      out := out + [NEWLINE];
      ManySoFar(IndexLine, td.indexes, i);
    }
    assert td.indexes[..|td.indexes|] == td.indexes;
    out := out + Digits(|td.indexPrefixes|);
    head := head + Many(IndexLine, td.indexes) + Line(|td.indexPrefixes|);
    NoneYet(Num, td.indexPrefixes);
    for i := 0 to |td.indexPrefixes|
      invariant out == head + Many(Num, td.indexPrefixes[..i])
    {
      out := out + [SPACE] + Digits(td.indexPrefixes[i]);
      ManySoFar(Num, td.indexPrefixes, i);
    }
    assert td.indexPrefixes[..|td.indexPrefixes|] == td.indexPrefixes;
    out := out + [NEWLINE];
  }

  lemma NoneYet<T>(show: T -> Key, xs: seq<T>)
    ensures Many(show, xs[..0]) == []
  {
  }

  lemma ColumnAt(cols: seq<Name>, types: seq<Type>, i: nat)
    requires i < |cols| == |types|
    ensures Columns(cols, types)[i] == Column(cols[i], types[i])
  {
  }

  /** After i of n extractions from s: what they returned, and the rest. */
  ghost predicate SoFar<T(!new)>(read: Key -> Option<Read<T>>, s: Key, n: nat, i: nat, done: seq<T>, rest: Key)
  {
    && |done| == i <= n
    && var more := ReadMany(read, rest, n - i);
       ReadMany(read, s, n) == if more.None? then None else Some(Read(done + more.value.val, more.value.rest))
  }

  lemma NoneRead<T(!new)>(read: Key -> Option<Read<T>>, s: Key, n: nat)
    ensures SoFar(read, s, n, 0, [], s)
  {
    var more := ReadMany(read, s, n);
    if more.Some? {
      assert [] + more.value.val == more.value.val;
    }
  }

  lemma OneRead<T(!new)>(read: Key -> Option<Read<T>>, s: Key, n: nat, i: nat, done: seq<T>, rest: Key)
    requires SoFar(read, s, n, i, done, rest) && i < n
    ensures read(rest).None? ==> ReadMany(read, s, n).None?
    ensures read(rest).Some? ==> SoFar(read, s, n, i + 1, done + [read(rest).value.val], read(rest).value.rest)
  {
    if read(rest).Some? {
      var r := read(rest).value;
      var more := ReadMany(read, r.rest, n - i - 1);
      if more.Some? {
        assert done + ([r.val] + more.value.val) == done + [r.val] + more.value.val;
      }
    }
  }

  lemma AllDone<T(!new)>(read: Key -> Option<Read<T>>, s: Key, n: nat, done: seq<T>, rest: Key)
    requires SoFar(read, s, n, n, done, rest)
    ensures ReadMany(read, s, n) == Some(Read(done, rest))
  {
    assert done + [] == done;
  }

  /** The columns: how many, and a name and a type for each. */
  method DecodeColumns(data: Key) returns (r: Option<Read<seq<Column>>>)
    ensures r == ReadColumnList(data)
  {
    hide ReadMany, SkipSpace, SoFar, ReadWord, ReadNumber;
    var n := ReadNumber(data, SIZE_LIMIT);
    if n.None? {
      return None;
    }
    var s := if n.value.rest == [] then [] else n.value.rest[1..];
    ghost var from := s;
    var cs: seq<Column> := [];
    NoneRead(ReadColumn, from, n.value.val);
    for i := 0 to n.value.val
      invariant SoFar(ReadColumn, from, n.value.val, i, cs, s) && |cs| == i
    {
      OneRead(ReadColumn, from, n.value.val, i, cs, s);
      var col := ReadWord(s);
      if col.None? {
        return None;
      }
      var code := ReadUint(col.value.rest);
      if code.None? || TypeOfCode(code.value.val).None? {
        return None;
      }
      cs, s := cs + [Column(col.value.val, TypeOfCode(code.value.val).value)], code.value.rest;
    }
    AllDone(ReadColumn, from, n.value.val, cs, s);
    r := Some(Read(cs, s));
  }

  /** One index: how many columns, and which. */
  method DecodeIndex(data: Key) returns (r: Option<Read<seq<Name>>>)
    ensures r == ReadIndex(data)
  {
    hide ReadMany, SkipSpace, SoFar, ReadWord, ReadNumber;
    var n := ReadNumber(data, SIZE_LIMIT);
    if n.None? {
      return None;
    }
    var s := n.value.rest;
    var index: seq<Name> := [];
    NoneRead(ReadWord, n.value.rest, n.value.val);
    for j := 0 to n.value.val
      invariant SoFar(ReadWord, n.value.rest, n.value.val, j, index, s) && |index| == j
    {
      OneRead(ReadWord, n.value.rest, n.value.val, j, index, s);
      var col := ReadWord(s);
      if col.None? {
        return None;
      }
      index, s := index + [col.value.val], col.value.rest;
    }
    AllDone(ReadWord, n.value.rest, n.value.val, index, s);
    r := Some(Read(index, s));
  }

  method DecodeIndexes(data: Key) returns (r: Option<Read<seq<seq<Name>>>>)
    ensures r == ReadList(ReadIndex, data)
  {
    hide ReadMany, ReadIndex, SkipSpace, SoFar, ReadNumber;
    var n := ReadNumber(data, SIZE_LIMIT);
    if n.None? {
      return None;
    }
    var s := n.value.rest;
    var indexes: seq<seq<Name>> := [];
    NoneRead(ReadIndex, n.value.rest, n.value.val);
    for i := 0 to n.value.val
      invariant SoFar(ReadIndex, n.value.rest, n.value.val, i, indexes, s) && |indexes| == i
    {
      OneRead(ReadIndex, n.value.rest, n.value.val, i, indexes, s);
      var index := DecodeIndex(s);
      if index.None? {
        return None;
      }
      indexes, s := indexes + [index.value.val], index.value.rest;
    }
    AllDone(ReadIndex, n.value.rest, n.value.val, indexes, s);
    r := Some(Read(indexes, s));
  }

  method DecodePrefixes(data: Key) returns (r: Option<Read<seq<nat>>>)
    ensures r == ReadList(ReadUint, data)
  {
    hide ReadMany, SkipSpace, SoFar, ReadNumber;
    var n := ReadNumber(data, SIZE_LIMIT);
    if n.None? {
      return None;
    }
    var s := n.value.rest;
    var prefixes: seq<nat> := [];
    NoneRead(ReadUint, n.value.rest, n.value.val);
    for i := 0 to n.value.val
      invariant SoFar(ReadUint, n.value.rest, n.value.val, i, prefixes, s) && |prefixes| == i
    {
      OneRead(ReadUint, n.value.rest, n.value.val, i, prefixes, s);
      var p := ReadUint(s);
      if p.None? {
        return None;
      }
      prefixes, s := prefixes + [p.value.val], p.value.rest;
    }
    AllDone(ReadUint, n.value.rest, n.value.val, prefixes, s);
    r := Some(Read(prefixes, s));
  }

  /** Read a definition back; None stands for false. */
  method DecodeTableDef(data: Key) returns (r: Option<TableDef>)
    ensures r == DecodeDef(data)
  {
    hide ReadMany, ReadList, ReadColumnList, ReadLine, ReadNumber;
    var name := ReadLine(data);
    if name.None? {
      return None;
    }
    var pkeys := ReadNumber(name.value.rest, INT_LIMIT);
    if pkeys.None? {
      return None;
    }
    var prefix := ReadUint(pkeys.value.rest);
    if prefix.None? {
      return None;
    }
    var cs := DecodeColumns(prefix.value.rest);
    if cs.None? {
      return None;
    }
    var indexes := DecodeIndexes(cs.value.rest);
    if indexes.None? {
      return None;
    }
    var prefixes := DecodePrefixes(indexes.value.rest);
    if prefixes.None? {
      return None;
    }
    r := Some(TableDef(name.value.val, NamesOf(cs.value.val), TypesOf(cs.value.val), pkeys.value.val, indexes.value.val,
                       prefix.value.val, prefixes.value.val));
  }

  // ------------------------------------------------------------ short texts

  lemma {:induction false} ManyLength<T(!new)>(show: T -> Key, xs: seq<T>)
    requires forall x :: x in xs ==> show(x) != []
    ensures |Many(show, xs)| >= |xs|
    ensures forall x :: x in xs ==> |Many(show, xs)| >= |show(x)|
  {
    if xs != [] {
      ManyLength(show, xs[1..]);
      assert forall x :: x in xs ==> x == xs[0] || x in xs[1..];
    }
  }

  /** A definition whose text is short enough for a value has no more of anything than its fields can hold. */
  lemma ShortFits(td: TableDef)
    requires |td.cols| == |td.types| && |EncodeDef(td)| < INT_LIMIT && td.pkeys <= |td.cols| && td.prefix < UINT_LIMIT
    requires |td.indexPrefixes| == |td.indexes| && forall i :: 0 <= i < |td.indexPrefixes| ==> td.indexPrefixes[i] < UINT_LIMIT
    ensures FitsFields(td)
  {
    hide Digits, Many;
    var cs := Columns(td.cols, td.types);
    ManyLength(ColumnLine, cs);
    ManyLength(IndexLine, td.indexes);
    forall i | 0 <= i < |td.indexes|
      ensures |td.indexes[i]| < SIZE_LIMIT
    {
      ManyLength(Word, td.indexes[i]);
      assert td.indexes[i] in td.indexes;
    }
  }
}

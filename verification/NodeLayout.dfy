/** The bytes of a B+tree node (BNode in src/storage/btree.cpp), and that they are the node's value. */
module NodeLayouts {
  import opened Bytes
  import opened Nodes
  import opened TreeDeletes
  import opened OrderPreserving

  const BNODE_NODE: nat := 1
  const BNODE_LEAF: nat := 2

  /** The low n bytes of v, least significant first. */
  function LittleEndian(v: nat, n: nat): (r: seq<Byte>)
    ensures |r| == n
  {
    if n == 0 then [] else [v % 256] + LittleEndian(v / 256, n - 1)
  }

  function FromLittleEndian(b: seq<Byte>): nat
  {
    if b == [] then 0 else b[0] + 256 * FromLittleEndian(b[1..])
  }

  lemma {:induction false} FromLittleEndianOf(v: nat, n: nat)
    requires v < Power(n)
    ensures FromLittleEndian(LittleEndian(v, n)) == v
  {
    if n > 0 {
      FromLittleEndianOf(v / 256, n - 1);
    }
  }

  // ------------------------------------------------------------ bytes in a buffer

  /** x lies at position a of d. */
  predicate At(d: seq<Byte>, a: nat, x: seq<Byte>)
  {
    a + |x| <= |d| && d[a..a + |x|] == x
  }

  function Overwritten(d: seq<Byte>, a: nat, x: seq<Byte>): (r: seq<Byte>)
    requires a + |x| <= |d|
    ensures |r| == |d|
  {
    d[..a] + x + d[a + |x|..]
  }

  lemma OverwrittenAt(d: seq<Byte>, a: nat, x: seq<Byte>)
    requires a + |x| <= |d|
    ensures At(Overwritten(d, a, x), a, x)
  {
  }

  /** Writing elsewhere does not disturb what lies at b. */
  lemma OverwrittenApart(d: seq<Byte>, a: nat, x: seq<Byte>, b: nat, y: seq<Byte>)
    requires a + |x| <= |d| && At(d, b, y) && (b + |y| <= a || a + |x| <= b)
    ensures At(Overwritten(d, a, x), b, y)
  {
    var w := Overwritten(d, a, x);
    forall i | 0 <= i < |y|
      ensures w[b + i] == y[i]
    {
      assert d[b..b + |y|][i] == d[b + i];
    }
    assert w[b..b + |y|] == y;
  }

  lemma AtConcat(d: seq<Byte>, a: nat, x: seq<Byte>, y: seq<Byte>)
    ensures At(d, a, x + y) <==> At(d, a, x) && At(d, a + |x|, y)
  {
    if a + |x| + |y| <= |d| {
      assert d[a..a + |x + y|] == d[a..a + |x|] + d[a + |x|..a + |x| + |y|];
      assert d[a..a + |x + y|][..|x|] == d[a..a + |x|];
      assert d[a..a + |x + y|][|x|..] == d[a + |x|..a + |x| + |y|];
      assert (x + y)[..|x|] == x && (x + y)[|x|..] == y;
    }
  }

  // ------------------------------------------------------------ the layout

  function KindCode(leaf: bool): nat
  {
    if leaf then BNODE_LEAF else BNODE_NODE
  }

  function HeaderBytes(leaf: bool, n: nat): (r: seq<Byte>)
    ensures |r| == HEADER
  {
    LittleEndian(KindCode(leaf), 2) + LittleEndian(n, 2)
  }

  /** The sizes of a key and value, then their bytes. */
  function PairBytes(e: Entry): (r: seq<Byte>)
    ensures |r| == 4 + |e.key| + |e.val|
  {
    LittleEndian(|e.key|, 2) + LittleEndian(|e.val|, 2) + e.key + e.val
  }

  function PairsSize(es: seq<Entry>): nat
  {
    if es == [] then 0 else 4 + |es[0].key| + |es[0].val| + PairsSize(es[1..])
  }

  lemma {:induction false} PairsSizeIs(es: seq<Entry>)
    ensures Size(es) == 10 * |es| + PairsSize(es)
  {
    if es != [] {
      PairsSizeIs(es[1..]);
    }
  }

  /** Pair i ends where pair i + 1 starts. */
  lemma PairsStep(es: seq<Entry>, i: nat)
    requires i < |es|
    ensures PairsSize(es[..i + 1]) == PairsSize(es[..i]) + |PairBytes(es[i])| <= PairsSize(es)
  {
    PairsSizeIs(es[..i]);
    PairsSizeIs(es[..i + 1]);
    PairsSizeIs(es);
    SizeStep(es, i);
    SizeCut(es, i + 1);
    PairsSizeIs(es[i + 1..]);
  }

  function PtrSlot(i: nat): nat { HEADER + 8 * i }

  /** Where the end offset of pair i - 1 is kept; the start of pair 0 is not. */
  function OffsetSlot(n: nat, i: nat): nat
    requires i > 0
  {
    HEADER + 8 * n + 2 * (i - 1)
  }

  function KvPos(n: nat, es: seq<Entry>, i: nat): nat
    requires i <= |es|
  {
    HEADER + 10 * n + PairsSize(es[..i])
  }

  /** Entry i is laid out in d, a node with room for n entries. */
  ghost predicate EntryAt(d: seq<Byte>, n: nat, es: seq<Entry>, i: nat)
    requires i < |es|
  {
    && At(d, PtrSlot(i), LittleEndian(es[i].ptr, 8))
    && At(d, OffsetSlot(n, i + 1), LittleEndian(PairsSize(es[..i + 1]), 2))
    && At(d, KvPos(n, es, i), PairBytes(es[i]))
  }

  /** The header of a node with n entries, of which es have been appended so far. */
  ghost predicate Laid(d: seq<Byte>, leaf: bool, n: nat, es: seq<Entry>)
  {
    && |es| <= n && |d| < 0x1_0000 && HEADER + 10 * n + PairsSize(es) <= |d|
    && At(d, 0, HeaderBytes(leaf, n))
    && forall i: nat :: i < |es| ==> EntryAt(d, n, es, i)
  }

  predicate EntryOk(e: Entry)
  {
    e.ptr < Power(8) && |e.key| <= MAX_KEY && |e.val| <= MAX_VAL
  }

  predicate EntriesOk(es: seq<Entry>)
  {
    forall i :: 0 <= i < |es| ==> EntryOk(es[i])
  }

  /** d holds exactly this node. */
  ghost predicate Encodes(d: seq<Byte>, node: Node)
  {
    EntriesOk(node.es) && Laid(d, node.leaf, |node.es|, node.es)
  }

  /** Writing where nothing is yet keeps what there is. */
  lemma FilledApart(d: seq<Byte>, leaf: bool, n: nat, es: seq<Entry>, a: nat, x: seq<Byte>)
    requires Laid(d, leaf, n, es) && a + |x| <= |d|
    requires || (PtrSlot(|es|) <= a && a + |x| <= HEADER + 8 * n)
             || (OffsetSlot(n, |es| + 1) <= a && a + |x| <= HEADER + 10 * n)
             || HEADER + 10 * n + PairsSize(es) <= a
    ensures Laid(Overwritten(d, a, x), leaf, n, es)
  {
    hide LittleEndian, PairBytes, HeaderBytes, PairsSize, At, Overwritten;
    OverwrittenApart(d, a, x, 0, HeaderBytes(leaf, n));
    forall i: nat | i < |es|
      ensures EntryAt(Overwritten(d, a, x), n, es, i)
    {
      assert EntryAt(d, n, es, i);
      PairsStep(es, i);
      OverwrittenApart(d, a, x, PtrSlot(i), LittleEndian(es[i].ptr, 8));
      OverwrittenApart(d, a, x, OffsetSlot(n, i + 1), LittleEndian(PairsSize(es[..i + 1]), 2));
      OverwrittenApart(d, a, x, KvPos(n, es, i), PairBytes(es[i]));
    }
  }

  lemma FilledMore(d: seq<Byte>, leaf: bool, n: nat, es: seq<Entry>, e: Entry)
    requires Laid(d, leaf, n, es) && |es| < n
    requires At(d, PtrSlot(|es|), LittleEndian(e.ptr, 8))
    requires At(d, OffsetSlot(n, |es| + 1), LittleEndian(PairsSize(es) + |PairBytes(e)|, 2))
    requires At(d, HEADER + 10 * n + PairsSize(es), PairBytes(e))
    ensures Laid(d, leaf, n, es + [e])
  {
    hide LittleEndian, PairBytes, HeaderBytes, PairsSize, At;
    var more := es + [e];
    PairsStep(more, |es|);
    assert more[..|es|] == es && more[..|es| + 1] == more;
    assert At(d, HEADER + 10 * n + PairsSize(es), PairBytes(e));
    AtInside(d, HEADER + 10 * n + PairsSize(es), PairBytes(e));
    forall i: nat | i < |more|
      ensures EntryAt(d, n, more, i)
    {
      if i < |es| {
        assert EntryAt(d, n, es, i);
        assert more[..i] == es[..i] && more[..i + 1] == es[..i + 1];
      }
    }
  }

  lemma AtInside(d: seq<Byte>, a: nat, x: seq<Byte>)
    requires At(d, a, x)
    ensures a + |x| <= |d|
  {
  }

  // ------------------------------------------------------------ reading back

  function ReadLE(d: seq<Byte>, a: nat, n: nat): nat
    requires a + n <= |d|
  {
    FromLittleEndian(d[a..a + n])
  }

  lemma ReadBack(d: seq<Byte>, a: nat, v: nat, n: nat)
    requires At(d, a, LittleEndian(v, n)) && v < Power(n)
    ensures a + n <= |d| && ReadLE(d, a, n) == v
  {
    FromLittleEndianOf(v, n);
  }

  lemma Power2()
    ensures Power(2) == 0x1_0000
  {
    assert Power(1) == 256 * Power(0);
  }

  lemma HeaderReads(d: seq<Byte>, leaf: bool, n: nat, es: seq<Entry>)
    requires Laid(d, leaf, n, es)
    ensures |d| >= HEADER && ReadLE(d, 0, 2) == KindCode(leaf) && ReadLE(d, 2, 2) == n
  {
    Power2();
    AtConcat(d, 0, LittleEndian(KindCode(leaf), 2), LittleEndian(n, 2));
    ReadBack(d, 0, KindCode(leaf), 2);
    ReadBack(d, 2, n, 2);
  }

  /** What the accessors read for entry i. */
  lemma EntryReads(d: seq<Byte>, leaf: bool, n: nat, es: seq<Entry>, i: nat)
    requires Laid(d, leaf, n, es) && i < |es| && EntryOk(es[i])
    ensures PtrSlot(i) + 8 <= |d| && ReadLE(d, PtrSlot(i), 8) == es[i].ptr
    ensures OffsetSlot(n, i + 1) + 2 <= |d| && ReadLE(d, OffsetSlot(n, i + 1), 2) == PairsSize(es[..i + 1])
    ensures var p, k, v := KvPos(n, es, i), |es[i].key|, |es[i].val|;
            && p + 4 + k + v <= |d| && ReadLE(d, p, 2) == k && ReadLE(d, p + 2, 2) == v
            && d[p + 4..p + 4 + k] == es[i].key && d[p + 4 + k..p + 4 + k + v] == es[i].val
  {
    hide LittleEndian, PairsSize, ReadLE;
    Power2();
    assert EntryAt(d, n, es, i);
    PairsStep(es, i);
    var e, p := es[i], KvPos(n, es, i);
    var kl, vl := LittleEndian(|e.key|, 2), LittleEndian(|e.val|, 2);
    ReadBack(d, PtrSlot(i), e.ptr, 8);
    ReadBack(d, OffsetSlot(n, i + 1), PairsSize(es[..i + 1]), 2);
    assert PairBytes(e) == kl + vl + e.key + e.val;
    AtConcat(d, p, kl + vl + e.key, e.val);
    AtConcat(d, p, kl + vl, e.key);
    AtConcat(d, p, kl, vl);
    ReadBack(d, p, |e.key|, 2);
    ReadBack(d, p + 2, |e.val|, 2);
  }

  /** The bytes determine the node: no page is the bytes of two different nodes. */
  lemma OneNode(d: seq<Byte>, a: Node, b: Node)
    requires Encodes(d, a) && Encodes(d, b)
    ensures a == b
  {
    hide Laid, ReadLE, PairsSize;
    HeaderReads(d, a.leaf, |a.es|, a.es);
    HeaderReads(d, b.leaf, |b.es|, b.es);
    SameEntries(d, a, b, |a.es|);
  }

  lemma {:induction false} SameEntries(d: seq<Byte>, a: Node, b: Node, i: nat)
    requires Encodes(d, a) && Encodes(d, b) && |a.es| == |b.es| && i <= |a.es|
    ensures a.es[..i] == b.es[..i]
  {
    hide Laid, ReadLE, PairsSize;
    if i > 0 {
      SameEntries(d, a, b, i - 1);
      EntryReads(d, a.leaf, |a.es|, a.es, i - 1);
      EntryReads(d, b.leaf, |b.es|, b.es, i - 1);
      assert a.es[i - 1] == b.es[i - 1];
      assert a.es[..i] == a.es[..i - 1] + [a.es[i - 1]] && b.es[..i] == b.es[..i - 1] + [b.es[i - 1]];
    }
  }

  // ------------------------------------------------------------ the buffer

  /** memcpy into a buffer. */
  method Store(data: array<Byte>, a: nat, x: seq<Byte>)
    requires a + |x| <= data.Length
    modifies data
    ensures data[..] == Overwritten(old(data[..]), a, x)
  {
    for i := 0 to |x|
      invariant forall j :: 0 <= j < i ==> data[a + j] == x[j]
      invariant forall j :: 0 <= j < data.Length && !(a <= j < a + i) ==> data[j] == old(data[j])
    {
      data[a + i] := x[i];
    }
  }

  /** memcpy of n bytes out of a buffer, as a number. */
  method Load(data: array<Byte>, a: nat, n: nat) returns (v: nat)
    requires a + n <= data.Length
    ensures v == ReadLE(data[..], a, n)
  {
    assert data[..][a..a + n] == data[a..a + n];
    v := FromLittleEndian(data[a..a + n]);
  }

  class BNode {
    const data: array<Byte>

    /** A zeroed buffer. */
    constructor (size: nat)
      ensures fresh(data) && data.Length == size && data[..] == seq(size, _ => 0)
    {
      data := new Byte[size](_ => 0);
    }

    /** The header of a node with n entries, of which es have been appended so far. */
    ghost predicate Filled(leaf: bool, n: nat, es: seq<Entry>)
      reads data
    {
      Laid(data[..], leaf, n, es)
    }

    ghost predicate Holds(node: Node)
      reads data
    {
      Encodes(data[..], node)
    }

    /** set_header */
    method SetHeader(leaf: bool, n: nat)
      requires HEADER + 10 * n <= data.Length < 0x1_0000
      modifies data
      ensures Filled(leaf, n, [])
    {
      Store(data, 0, LittleEndian(KindCode(leaf), 2));
      Store(data, 2, LittleEndian(n, 2));
      ghost var kind, count := LittleEndian(KindCode(leaf), 2), LittleEndian(n, 2);
      OverwrittenAt(old(data[..]), 0, kind);
      OverwrittenApart(Overwritten(old(data[..]), 0, kind), 2, count, 0, kind);
      AtConcat(data[..], 0, kind, count);
    }

    method NKeys(ghost leaf: bool, ghost n: nat, ghost es: seq<Entry>) returns (r: nat)
      requires Filled(leaf, n, es)
      ensures r == n
    {
      HeaderReads(data[..], leaf, n, es);
      r := Load(data, 2, 2);
    }

    method IsLeaf(ghost node: Node) returns (r: bool)
      requires Holds(node)
      ensures r == node.leaf
    {
      HeaderReads(data[..], node.leaf, |node.es|, node.es);
      var kind := Load(data, 0, 2);
      r := kind == BNODE_LEAF;
    }

    /** get_offset: where pair idx starts, which for the next pair to append is where the last one ended. */
    method GetOffset(idx: nat, ghost leaf: bool, ghost n: nat, ghost es: seq<Entry>) returns (r: nat)
      requires Filled(leaf, n, es) && EntriesOk(es) && idx <= |es|
      ensures r == PairsSize(es[..idx])
    {
      if idx == 0 {
        return 0;
      }
      EntryReads(data[..], leaf, n, es, idx - 1);
      var count := NKeys(leaf, n, es);
      r := Load(data, OffsetSlot(count, idx), 2);
    }

    method GetPtr(idx: nat, ghost node: Node) returns (r: nat)
      requires Holds(node) && idx < |node.es|
      ensures r == node.es[idx].ptr
    {
      EntryReads(data[..], node.leaf, |node.es|, node.es, idx);
      r := Load(data, PtrSlot(idx), 8);
    }

    method GetKey(idx: nat, ghost node: Node) returns (r: Key)
      requires Holds(node) && idx < |node.es|
      ensures r == node.es[idx].key
    {
      hide Laid, ReadLE, PairsSize, Power;
      EntryReads(data[..], node.leaf, |node.es|, node.es, idx);
      var n := NKeys(node.leaf, |node.es|, node.es);
      var offset := GetOffset(idx, node.leaf, |node.es|, node.es);
      var pos := HEADER + 10 * n + offset;
      var klen := Load(data, pos, 2);
      r := data[pos + 4..pos + 4 + klen];
    }

    method GetVal(idx: nat, ghost node: Node) returns (r: Key)
      requires Holds(node) && idx < |node.es|
      ensures r == node.es[idx].val
    {
      hide Laid, ReadLE, PairsSize, Power;
      EntryReads(data[..], node.leaf, |node.es|, node.es, idx);
      var n := NKeys(node.leaf, |node.es|, node.es);
      var offset := GetOffset(idx, node.leaf, |node.es|, node.es);
      var pos := HEADER + 10 * n + offset;
      var klen := Load(data, pos, 2);
      var vlen := Load(data, pos + 2, 2);
      r := data[pos + 4 + klen..pos + 4 + klen + vlen];
    }

    /** nbytes: the size the split and merge conditions reckon with. */
    method NBytes(ghost node: Node) returns (r: nat)
      requires Holds(node)
      ensures r == Nodes.NBytes(node)
    {
      var n := NKeys(node.leaf, |node.es|, node.es);
      var offset := GetOffset(n, node.leaf, |node.es|, node.es);
      assert node.es[..n] == node.es;
      PairsSizeIs(node.es);
      r := HEADER + 10 * n + offset;
    }

    /** node_append_kv: lay out the next entry after those already there. */
    method NodeAppendKv(idx: nat, ptr: nat, key: Key, val: Key, ghost leaf: bool, ghost n: nat, ghost es: seq<Entry>)
      requires Filled(leaf, n, es) && EntriesOk(es) && idx == |es| < n && EntryOk(Entry(ptr, key, val))
      requires HEADER + 10 * n + PairsSize(es) + 4 + |key| + |val| <= data.Length
      modifies data
      ensures Filled(leaf, n, es + [Entry(ptr, key, val)]) && EntriesOk(es + [Entry(ptr, key, val)])
    {
      hide Laid, LittleEndian, PairBytes, PairsSize, At, Overwritten;
      var count := NKeys(leaf, n, es);
      var offset := GetOffset(idx, leaf, n, es);
      assert es[..idx] == es;
      var pos := HEADER + 10 * count + offset;
      ghost var e := Entry(ptr, key, val);
      ghost var d0 := data[..];
      Store(data, PtrSlot(idx), LittleEndian(ptr, 8));
      ghost var d1 := data[..];
      WritePair(pos, Entry(ptr, key, val));
      ghost var d2 := data[..];
      Store(data, OffsetSlot(count, idx + 1), LittleEndian(offset + 4 + |key| + |val|, 2));
      Appended(d0, d1, d2, data[..], leaf, n, es, e);
    }

    /** The sizes and bytes of a key and value. */
    method WritePair(pos: nat, e: Entry)
      requires pos + 4 + |e.key| + |e.val| <= data.Length
      modifies data
      ensures data[..] == Overwritten(old(data[..]), pos, PairBytes(e))
    {
      ghost var d := data[..];
      Store(data, pos, LittleEndian(|e.key|, 2));
      Store(data, pos + 2, LittleEndian(|e.val|, 2));
      OverwrittenTwice(d, pos, LittleEndian(|e.key|, 2), LittleEndian(|e.val|, 2));
      Store(data, pos + 4, e.key);
      OverwrittenTwice(d, pos, LittleEndian(|e.key|, 2) + LittleEndian(|e.val|, 2), e.key);
      Store(data, pos + 4 + |e.key|, e.val);
      OverwrittenTwice(d, pos, LittleEndian(|e.key|, 2) + LittleEndian(|e.val|, 2) + e.key, e.val);
    }
  }

  /** Writing x and then y behind it is writing both at once. */
  lemma OverwrittenTwice(d: seq<Byte>, a: nat, x: seq<Byte>, y: seq<Byte>)
    requires a + |x| + |y| <= |d|
    ensures Overwritten(Overwritten(d, a, x), a + |x|, y) == Overwritten(d, a, x + y)
  {
  }

  /** The three writes of node_append_kv complete the entry. */
  lemma Appended(d0: seq<Byte>, d1: seq<Byte>, d2: seq<Byte>, d3: seq<Byte>, leaf: bool, n: nat, es: seq<Entry>, e: Entry)
    requires Laid(d0, leaf, n, es) && |es| < n && HEADER + 10 * n + PairsSize(es) + |PairBytes(e)| <= |d0|
    requires d1 == Overwritten(d0, PtrSlot(|es|), LittleEndian(e.ptr, 8))
    requires d2 == Overwritten(d1, HEADER + 10 * n + PairsSize(es), PairBytes(e))
    requires d3 == Overwritten(d2, OffsetSlot(n, |es| + 1), LittleEndian(PairsSize(es) + |PairBytes(e)|, 2))
    ensures Laid(d3, leaf, n, es + [e])
  {
    hide LittleEndian, PairBytes, HeaderBytes, PairsSize, At, Overwritten, Laid;
    var ptr, pos, slot := PtrSlot(|es|), HEADER + 10 * n + PairsSize(es), OffsetSlot(n, |es| + 1);
    var p, x, o := LittleEndian(e.ptr, 8), PairBytes(e), LittleEndian(PairsSize(es) + |PairBytes(e)|, 2);
    FilledApart(d0, leaf, n, es, ptr, p);
    FilledApart(d1, leaf, n, es, pos, x);
    FilledApart(d2, leaf, n, es, slot, o);
    OverwrittenAt(d0, ptr, p);
    OverwrittenApart(d1, pos, x, ptr, p);
    OverwrittenApart(d2, slot, o, ptr, p);
    OverwrittenAt(d1, pos, x);
    OverwrittenApart(d2, slot, o, pos, x);
    OverwrittenAt(d2, slot, o);
    FilledMore(d3, leaf, n, es, e);
  }

  // ------------------------------------------------------------ building nodes

  lemma RangeStep(es: seq<Entry>, src: nat, i: nat)
    requires src + i < |es|
    ensures es[src..src + i + 1] == es[src..src + i] + [es[src + i]]
  {
  }

  lemma PairsSizeAppend(a: seq<Entry>, b: seq<Entry>)
    ensures PairsSize(a + b) == PairsSize(a) + PairsSize(b)
  {
    SizeAppend(a, b);
    PairsSizeIs(a);
    PairsSizeIs(b);
    PairsSizeIs(a + b);
  }

  /** node_append_range: append n of old's entries, from src on. */
  method NodeAppendRange(buf: BNode, orig: BNode, dst: nat, src: nat, n: nat,
                         ghost leaf: bool, ghost total: nat, ghost es: seq<Entry>, ghost node: Node)
    requires buf.data != orig.data && buf.Filled(leaf, total, es) && EntriesOk(es) && orig.Holds(node)
    requires dst == |es| && src + n <= |node.es| && dst + n <= total
    requires HEADER + 10 * total + PairsSize(es + node.es[src..src + n]) <= buf.data.Length
    modifies buf.data
    ensures buf.Filled(leaf, total, es + node.es[src..src + n]) && EntriesOk(es + node.es[src..src + n])
  {
    hide Laid, PairsSize, Power;
    assert es + node.es[src..src] == es;
    for i := 0 to n
      invariant buf.Filled(leaf, total, es + node.es[src..src + i]) && EntriesOk(es + node.es[src..src + i])
    {
      ghost var done, e := es + node.es[src..src + i], node.es[src + i];
      var ptr := orig.GetPtr(src + i, node);
      var key := orig.GetKey(src + i, node);
      var val := orig.GetVal(src + i, node);
      RangeStep(node.es, src, i);
      RangeFits(es, node.es, src, i, n);
      assert done + [e] == es + node.es[src..src + i + 1];
      buf.NodeAppendKv(dst + i, ptr, key, val, leaf, total, done);
    }
  }

  lemma RangeFits(es: seq<Entry>, more: seq<Entry>, src: nat, i: nat, n: nat)
    requires i < n && src + n <= |more|
    ensures PairsSize(es + more[src..src + i]) + 4 + |more[src + i].key| + |more[src + i].val| <= PairsSize(es + more[src..src + n])
  {
    var all := es + more[src..src + n];
    PairsStep(all, |es| + i);
    assert all[..|es| + i] == es + more[src..src + i];
  }

  /**
   * The first i entries of a node, then mid, then those from j on. The builders of leaves and internal nodes all write
   * such a node.
   */
  method BuildSplice(buf: BNode, orig: BNode, leaf: bool, i: nat, mid: seq<Entry>, j: nat, ghost node: Node)
    requires buf.data != orig.data && orig.Holds(node) && i <= j <= |node.es| && EntriesOk(mid)
    requires NBytes(Node(leaf, node.es[..i] + mid + node.es[j..])) <= buf.data.Length < 0x1_0000
    modifies buf.data
    ensures buf.Holds(Node(leaf, node.es[..i] + mid + node.es[j..]))
  {
    hide Laid, PairsSize, Power, Size;
    var count := orig.NKeys(node.leaf, |node.es|, node.es);
    var total := i + |mid| + (count - j);
    ghost var es := node.es[..i] + mid + node.es[j..];
    PairsSizeIs(es);
    buf.SetHeader(leaf, total);
    FitsSoFar(node.es[0..i], mid + node.es[j..]);
    assert [] + node.es[0..i] == node.es[..i] && node.es[0..i] + (mid + node.es[j..]) == es;
    NodeAppendRange(buf, orig, 0, 0, i, leaf, total, [], node);
    assert node.es[..i] + mid[..0] == node.es[..i];
    for k := 0 to |mid|
      invariant buf.Filled(leaf, total, node.es[..i] + mid[..k]) && EntriesOk(node.es[..i] + mid[..k])
    {
      ghost var done := node.es[..i] + mid[..k];
      assert node.es[..i] + mid[..k + 1] == done + [mid[k]];
      assert es == (done + [mid[k]]) + (mid[k + 1..] + node.es[j..]);
      FitsSoFar(done + [mid[k]], mid[k + 1..] + node.es[j..]);
      LastPair(done, mid[k]);
      buf.NodeAppendKv(i + k, mid[k].ptr, mid[k].key, mid[k].val, leaf, total, done);
    }
    assert mid[..|mid|] == mid && node.es[j..j + (count - j)] == node.es[j..];
    NodeAppendRange(buf, orig, i + |mid|, j, count - j, leaf, total, node.es[..i] + mid, node);
  }

  lemma FitsSoFar(es: seq<Entry>, more: seq<Entry>)
    ensures PairsSize(es) <= PairsSize(es + more)
  {
    PairsSizeAppend(es, more);
  }

  lemma LastPair(es: seq<Entry>, e: Entry)
    ensures PairsSize(es + [e]) == PairsSize(es) + 4 + |e.key| + |e.val|
  {
    PairsSizeAppend(es, [e]);
  }

  /** leaf_insert */
  method BuildLeafInsert(buf: BNode, orig: BNode, idx: nat, key: Key, val: Key, ghost node: Node)
    requires buf.data != orig.data && orig.Holds(node) && idx <= |node.es| && |key| <= MAX_KEY && |val| <= MAX_VAL
    requires NBytes(LeafInsert(node, idx, key, val)) <= buf.data.Length < 0x1_0000
    modifies buf.data
    ensures buf.Holds(LeafInsert(node, idx, key, val))
  {
    BuildSplice(buf, orig, true, idx, [Entry(0, key, val)], idx, node);
  }

  /** leaf_update */
  method BuildLeafUpdate(buf: BNode, orig: BNode, idx: nat, key: Key, val: Key, ghost node: Node)
    requires buf.data != orig.data && orig.Holds(node) && idx < |node.es| && |key| <= MAX_KEY && |val| <= MAX_VAL
    requires NBytes(LeafUpdate(node, idx, key, val)) <= buf.data.Length < 0x1_0000
    modifies buf.data
    ensures buf.Holds(LeafUpdate(node, idx, key, val))
  {
    BuildSplice(buf, orig, true, idx, [Entry(0, key, val)], idx + 1, node);
  }

  /** leaf_delete */
  method BuildLeafDelete(buf: BNode, orig: BNode, idx: nat, ghost node: Node)
    requires buf.data != orig.data && orig.Holds(node) && idx < |node.es|
    requires NBytes(LeafDelete(node, idx)) <= buf.data.Length < 0x1_0000
    modifies buf.data
    ensures buf.Holds(LeafDelete(node, idx))
  {
    assert node.es[..idx] + [] + node.es[idx + 1..] == node.es[..idx] + node.es[idx + 1..];
    BuildSplice(buf, orig, true, idx, [], idx + 1, node);
  }

  /** node_replace_child_n, given the links to the children */
  method BuildReplaceChildN(buf: BNode, orig: BNode, idx: nat, links: seq<Entry>, ghost node: Node)
    requires buf.data != orig.data && orig.Holds(node) && idx < |node.es| && EntriesOk(links)
    requires NBytes(Node(false, node.es[..idx] + links + node.es[idx + 1..])) <= buf.data.Length < 0x1_0000
    modifies buf.data
    ensures buf.Holds(Node(false, node.es[..idx] + links + node.es[idx + 1..]))
  {
    BuildSplice(buf, orig, false, idx, links, idx + 1, node);
  }

  /** node_replace_2_child */
  method BuildReplace2Child(buf: BNode, orig: BNode, idx: nat, ptr: nat, key: Key, ghost node: Node)
    requires buf.data != orig.data && orig.Holds(node) && idx + 1 < |node.es| && ptr < Power(8) && |key| <= MAX_KEY
    requires NBytes(NodeReplace2Child(node, idx, ptr, key)) <= buf.data.Length < 0x1_0000
    modifies buf.data
    ensures buf.Holds(NodeReplace2Child(node, idx, ptr, key))
  {
    BuildSplice(buf, orig, false, idx, [Entry(ptr, key, [])], idx + 2, node);
  }

  /** node_merge */
  method BuildNodeMerge(buf: BNode, left: BNode, right: BNode, ghost l: Node, ghost r: Node)
    requires buf.data != left.data && buf.data != right.data && left.Holds(l) && right.Holds(r)
    requires NBytes(NodeMerge(l, r)) <= buf.data.Length < 0x1_0000
    modifies buf.data
    ensures buf.Holds(NodeMerge(l, r))
  {
    hide Laid, PairsSize, Power, Size;
    var nleft := left.NKeys(l.leaf, |l.es|, l.es);
    var nright := right.NKeys(r.leaf, |r.es|, r.es);
    var leaf := left.IsLeaf(l);
    PairsSizeIs(l.es + r.es);
    FitsSoFar(l.es, r.es);
    assert [] + l.es[0..nleft] == l.es && l.es + r.es[0..nright] == l.es + r.es;
    buf.SetHeader(leaf, nleft + nright);
    NodeAppendRange(buf, left, 0, 0, nleft, leaf, nleft + nright, [], l);
    NodeAppendRange(buf, right, nleft, 0, nright, leaf, nleft + nright, l.es, r);
  }

  /** The two-page scratch buffer of tree_insert has room for whatever insertion puts there. */
  lemma ScratchSuffices(node: Node, idx: nat, key: Key, val: Key)
    requires NBytes(node) <= PAGE_SIZE && idx <= |node.es| && |key| <= MAX_KEY && |val| <= MAX_VAL
    ensures NBytes(LeafInsert(node, idx, key, val)) <= 2 * PAGE_SIZE
    ensures idx < |node.es| ==> NBytes(LeafUpdate(node, idx, key, val)) <= 2 * PAGE_SIZE
  {
    hide Size;
    var e := Entry(0, key, val);
    SizeSingleton([e]);
    SizeCut(node.es, idx);
    SizeAppend(node.es[..idx] + [e], node.es[idx..]);
    SizeAppend(node.es[..idx], [e]);
    if idx < |node.es| {
      SizeStep(node.es, idx);
      SizeCut(node.es, idx + 1);
      SizeAppend(node.es[..idx] + [e], node.es[idx + 1..]);
    }
  }

  // ------------------------------------------------------------ pages

  /** Only the bytes a node occupies matter. */
  lemma HoldsInPrefix(d: seq<Byte>, w: seq<Byte>, node: Node)
    requires Encodes(d, node) && NBytes(node) <= |w| < 0x1_0000 && NBytes(node) <= |d|
    requires w[..NBytes(node)] == d[..NBytes(node)]
    ensures Encodes(w, node)
  {
    hide LittleEndian, PairBytes, HeaderBytes, PairsSize, At, Power, Size;
    var n, es := |node.es|, node.es;
    PairsSizeIs(es);
    AtInPrefix(d, w, NBytes(node), 0, HeaderBytes(node.leaf, n));
    forall i: nat | i < n
      ensures EntryAt(w, n, es, i)
    {
      assert EntryAt(d, n, es, i);
      PairsStep(es, i);
      AtInPrefix(d, w, NBytes(node), PtrSlot(i), LittleEndian(es[i].ptr, 8));
      AtInPrefix(d, w, NBytes(node), OffsetSlot(n, i + 1), LittleEndian(PairsSize(es[..i + 1]), 2));
      AtInPrefix(d, w, NBytes(node), KvPos(n, es, i), PairBytes(es[i]));
    }
  }

  lemma AtInPrefix(d: seq<Byte>, w: seq<Byte>, k: nat, a: nat, x: seq<Byte>)
    requires At(d, a, x) && a + |x| <= k <= |d| && k <= |w| && w[..k] == d[..k]
    ensures At(w, a, x)
  {
    assert d[..k][a..a + |x|] == d[a..a + |x|] && w[..k][a..a + |x|] == w[a..a + |x|];
  }

  /** encode: the used part of a buffer as a page, which decode reads back as the same node. */
  method EncodePage(n: BNode, ghost node: Node) returns (page: BNode)
    requires n.Holds(node) && NBytes(node) <= PAGE_SIZE
    ensures fresh(page) && fresh(page.data) && page.data.Length == PAGE_SIZE && page.Holds(node)
  {
    hide Laid, PairsSize, Power, Size;
    HoldsFits(n.data[..], node);
    var used := n.NBytes(node);
    page := new BNode(PAGE_SIZE);
    Store(page.data, 0, n.data[..used]);
    assert page.data[..][..used] == n.data[..][..used];
    HoldsInPrefix(n.data[..], page.data[..], node);
  }

  lemma HoldsFits(d: seq<Byte>, node: Node)
    requires Encodes(d, node)
    ensures NBytes(node) <= |d| < 0x1_0000
  {
    PairsSizeIs(node.es);
  }
}
